/**
 * The key record sorted by every engine: an immutable character string with
 * one bounds-checked accessor (cpp/src/poscode.cpp).
 */
module Poscodes {
  import opened Wrappers

  /** The only error a key can raise: a character index past its end (std::out_of_range). */
  datatype KeyError = OutOfRange(index: nat, length: nat)

  /**
   * A position code. Being a datatype value it cannot change after construction,
   * which is what the C++ class gets from a private field and `const` accessors.
   */
  datatype Poscode = Poscode(data: string)

  /** The default constructor: a code with no characters. */
  function EmptyCode(): (p: Poscode)
    ensures |GetData(p)| == 0
    ensures forall i: nat :: GetValue(p, i).Err?
  {
    Poscode("")
  }

  /** The string constructor: keeps its argument verbatim. */
  function MakeCode(value: string): (p: Poscode)
    ensures GetData(p) == value
    ensures forall i: nat :: i < |value| ==> GetValue(p, i) == Ok(value[i])
    ensures forall i: nat :: i >= |value| ==> GetValue(p, i) == Err(OutOfRange(i, |value|))
  {
    Poscode(value)
  }

  /** Character `i` of the code, or an out-of-range error when `i` is not below the length. */
  function GetValue(p: Poscode, i: nat): (r: Result<char, KeyError>)
    ensures r.Ok? <==> i < |p.data|
    ensures r.Ok? ==> r.value == p.data[i]
    ensures r.Err? ==> r.error == OutOfRange(i, |p.data|)
  {
    if i >= |p.data| then Err(OutOfRange(i, |p.data|)) else Ok(p.data[i])
  }

  /** The whole underlying string: exactly the characters `GetValue` hands out, and no more. */
  function GetData(p: Poscode): (s: string)
    ensures forall i: nat :: GetValue(p, i) == if i < |s| then Ok(s[i]) else Err(OutOfRange(i, |s|))
  {
    p.data
  }
}
