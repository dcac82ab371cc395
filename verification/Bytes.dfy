/** The fixed, zero-padded character buffers that every endpoint copies its text
    through: filling, copying, and scanning to the first zero. */
module Bytes {

  newtype byte = x: int | 0 <= x < 256

  /** Capacity of every read, write and frame buffer. */
  const MAX_BUF_SIZE: nat := 1024

  datatype Option<T> = None | Some(value: T)

  predicate AllZero(s: seq<byte>) {
    forall i :: 0 <= i < |s| ==> s[i] == 0
  }

  predicate NulFree(s: seq<byte>) {
    forall i :: 0 <= i < |s| ==> s[i] != 0
  }

  /** From its first zero onward, the text holds nothing but zeros. */
  predicate ZeroTailed(s: seq<byte>) {
    forall i, j :: 0 <= i <= j < |s| && s[i] == 0 ==> s[j] == 0
  }

  function Min(a: nat, b: nat): nat {
    if a <= b then a else b
  }

  function Zeros(n: nat): (z: seq<byte>)
    ensures |z| == n && AllZero(z)
  {
    seq(n, i => 0)
  }

  /** The buffer after `data` was copied over its beginning. */
  function Overlay(buf: seq<byte>, data: seq<byte>): (r: seq<byte>)
    requires |data| <= |buf|
  {
    data + buf[|data|..]
  }

  /** The buffer after its first `n` characters were zeroed. */
  function Clear(buf: seq<byte>, n: nat): (r: seq<byte>)
    requires n <= |buf|
  {
    Overlay(buf, Zeros(n))
  }

  /** The text in front of the first zero; the whole sequence when there is none. */
  function Scan(s: seq<byte>): (r: seq<byte>)
    ensures r <= s && NulFree(r)
    ensures |r| < |s| ==> s[|r|] == 0
  {
    if s == [] || s[0] == 0 then [] else [s[0]] + Scan(s[1..])
  }

  /** Copying changes the beginning and nothing behind it. */
  lemma OverlayExact(buf: seq<byte>, data: seq<byte>, r: seq<byte>)
    requires |data| <= |buf|
    ensures r == Overlay(buf, data)
       <==> |r| == |buf| && forall i :: 0 <= i < |r| ==> r[i] == if i < |data| then data[i] else buf[i]
  {
    var o := Overlay(buf, data);
    assert forall i :: 0 <= i < |o| ==> o[i] == if i < |data| then data[i] else buf[i];
  }

  /** Clearing zeroes the beginning and changes nothing behind it. */
  lemma ClearExact(buf: seq<byte>, n: nat, r: seq<byte>)
    requires n <= |buf|
    ensures r == Clear(buf, n)
       <==> |r| == |buf| && forall i :: 0 <= i < |r| ==> r[i] == if i < n then 0 else buf[i]
  {
    OverlayExact(buf, Zeros(n), r);
    var z := Zeros(n);
    assert forall i :: 0 <= i < n ==> z[i] == 0;
  }

  /** The two facts promised by `Scan` leave no choice. */
  lemma {:induction false} ScanUnique(s: seq<byte>, r: seq<byte>)
    requires r <= s && NulFree(r)
    requires |r| < |s| ==> s[|r|] == 0
    ensures r == Scan(s)
  {
    var t := Scan(s);
    assert forall k :: 0 <= k < |r| ==> s[k] == r[k] != 0;
    assert forall k :: 0 <= k < |t| ==> s[k] == t[k] != 0;
    assert |t| == |r|;
  }

  /** Reading a chunk over a buffer and scanning it back gives the chunk exactly when the chunk
      has no zero and whatever the buffer held right behind it is a zero. */
  lemma ScanOverlay(buf: seq<byte>, data: seq<byte>)
    requires |data| <= |buf|
    ensures Scan(Overlay(buf, data)) == data
       <==> NulFree(data) && (|data| < |buf| ==> buf[|data|] == 0)
  {
    var o := Overlay(buf, data);
    assert |data| < |buf| ==> o[|data|] == buf[|data|];
    if NulFree(data) && (|data| < |buf| ==> buf[|data|] == 0) {
      ScanUnique(o, data);
    }
  }

  /** Over a zeroed buffer the scan depends on the chunk alone. */
  lemma ScanPadded(n: nat, data: seq<byte>)
    requires |data| <= n
    ensures Scan(Overlay(Zeros(n), data)) == Scan(data)
  {
    var o := Overlay(Zeros(n), data);
    var r := Scan(data);
    assert r <= o;
    if |r| < |data| {
      assert o[|r|] == data[|r|];
    }
    ScanUnique(o, r);
  }

  /** The zero-padded encoding of a text decodes to that text exactly when the text has no zero. */
  lemma PadThenScan(n: nat, text: seq<byte>)
    requires |text| <= n
    ensures Scan(Overlay(Zeros(n), text)) == text <==> NulFree(text)
  {
    ScanOverlay(Zeros(n), text);
  }

  /** Decoding a buffer and padding the text again rebuilds the buffer exactly when the buffer
      is zero from its first zero onward. */
  lemma ScanThenPad(buf: seq<byte>)
    ensures Overlay(Zeros(|buf|), Scan(buf)) == buf <==> ZeroTailed(buf)
  {
    var t := Scan(buf);
    var o := Overlay(Zeros(|buf|), t);
    assert forall j :: |t| <= j < |buf| ==> o[j] == 0;
    if ZeroTailed(buf) {
      forall j | 0 <= j < |buf| ensures o[j] == buf[j] {
        if j >= |t| {
          assert buf[|t|] == 0;
        }
      }
    }
    assert forall k :: 0 <= k < |t| ==> buf[k] == t[k] != 0;
  }

  /** Clearing as much as was scanned leaves a clean buffer exactly when the buffer was zero-tailed. */
  lemma ClearScanned(buf: seq<byte>)
    ensures AllZero(Clear(buf, |Scan(buf)|)) <==> ZeroTailed(buf)
  {
    var t := Scan(buf);
    var o := Clear(buf, |t|);
    assert forall k :: 0 <= k < |t| ==> buf[k] == t[k] != 0;
    assert forall j :: |t| <= j < |buf| ==> o[j] == buf[j];
  }

  /** Padding with zeros neither creates nor hides a residue behind the first zero. */
  lemma ZeroTailedPadded(n: nat, data: seq<byte>)
    requires |data| <= n
    ensures ZeroTailed(Overlay(Zeros(n), data)) <==> ZeroTailed(data)
  {
    var o := Overlay(Zeros(n), data);
    assert forall i :: 0 <= i < |data| ==> o[i] == data[i];
    assert forall i :: |data| <= i < n ==> o[i] == 0;
    if ZeroTailed(o) {
      forall i, j | 0 <= i <= j < |data| && data[i] == 0 ensures data[j] == 0 {
        assert o[i] == 0 && o[j] == data[j];
      }
    }
  }

  lemma AllZeroIsZeros(s: seq<byte>)
    requires AllZero(s)
    ensures s == Zeros(|s|)
  {}

  /** Zeroes the first `n` characters in place. */
  method Fill(a: array<byte>, n: nat)
    requires n <= a.Length
    modifies a
    ensures a[..] == Clear(old(a[..]), n)
  {
    for i := 0 to n
      invariant forall k :: 0 <= k < i ==> a[k] == 0
      invariant forall k :: i <= k < a.Length ==> a[k] == old(a[k])
    {
      a[i] := 0;
    }
  }

  /** Copies `data` over the beginning of the buffer, without reallocation. */
  method CopyIn(a: array<byte>, data: seq<byte>)
    requires |data| <= a.Length
    modifies a
    ensures a[..] == Overlay(old(a[..]), data)
  {
    for i := 0 to |data|
      invariant forall k :: 0 <= k < i ==> a[k] == data[k]
      invariant forall k :: i <= k < a.Length ==> a[k] == old(a[k])
    {
      a[i] := data[i];
    }
  }

  /** Copies out the text in front of the first zero. */
  method CopyToNul(a: array<byte>) returns (data: seq<byte>)
    ensures data == Scan(a[..])
  {
    data := [];
    while |data| < a.Length && a[|data|] != 0
      invariant |data| <= a.Length && data == a[..|data|] && NulFree(data)
      decreases a.Length - |data|
    {
      data := data + [a[|data|]];
    }
    ScanUnique(a[..], data);
  }
}
