/**
 * The byte-level view of Go strings that the CEP formatter relies on:
 * `len` and slicing count bytes, and `strings.Contains` / `strings.Replace`
 * with the one-byte pattern "-" scan bytes from the left.
 */
module GoStrings {

  /** One byte of a Go string. */
  newtype byte = b: int | 0 <= b < 256

  /** The UTF-8 bytes of a text made only of ASCII characters (one byte each). */
  function Ascii(s: string): (r: seq<byte>)
    requires forall i :: 0 <= i < |s| ==> s[i] as int < 128
    ensures |r| == |s|
    ensures forall i :: 0 <= i < |s| ==> r[i] as int == s[i] as int
  {
    seq(|s|, i requires 0 <= i < |s| => s[i] as int as byte)
  }

  /** `k` is the position of the first `c` in `s`. */
  predicate FirstAt(s: seq<byte>, c: byte, k: int) {
    0 <= k < |s| && s[k] == c && forall j :: 0 <= j < k ==> s[j] != c
  }

  /**
   * The position of the first `c` in `s`, or -1 when there is none, as Go's
   * `strings.Index` answers for a one-byte pattern.
   */
  function Index(s: seq<byte>, c: byte): (i: int)
    ensures -1 <= i < |s|
    ensures i == -1 <==> c !in s
    ensures i != -1 ==> FirstAt(s, c, i)
  {
    if s == [] then -1
    else if s[0] == c then 0
    else
      var j := Index(s[1..], c);
      if j == -1 then -1 else j + 1
  }

  /** Go's `strings.Contains` for a one-byte pattern: `strings.Index(s, c) >= 0`. */
  function Contains(s: seq<byte>, c: byte): (b: bool)
    ensures b <==> c in s
  {
    Index(s, c) >= 0
  }

  /**
   * Go's `strings.Replace(s, c, "", 1)`: the first occurrence of `c` is
   * deleted and every later one is kept; without `c` nothing changes.
   */
  function RemoveFirst(s: seq<byte>, c: byte): (r: seq<byte>)
    ensures c !in s ==> r == s
    ensures c in s ==> |r| == |s| - 1
    ensures forall k :: FirstAt(s, c, k) ==> r == s[..k] + s[k + 1..]
  {
    var i := Index(s, c);
    if i == -1 then s
    else
      assert forall k :: FirstAt(s, c, k) ==> k == i;
      s[..i] + s[i + 1..]
  }

  /** Inserting `c` into a text without `c` and then removing the first `c` gives the text back. */
  lemma InsertThenRemoveFirst(s: seq<byte>, c: byte, k: nat)
    requires c !in s
    requires k <= |s|
    ensures RemoveFirst(s[..k] + [c] + s[k..], c) == s
  {
    var t := s[..k] + [c] + s[k..];
    assert FirstAt(t, c, k) by {
      forall j | 0 <= j < k ensures t[j] != c {
        assert t[j] == s[j];
      }
    }
    assert t[..k] == s[..k];
    assert t[k + 1..] == s[k..];
    assert s == s[..k] + s[k..];
  }
}
