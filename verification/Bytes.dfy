/** Bytes, little- and big-endian 16-bit fields, and the flattening of lists of byte strings. */
module Bytes {

  type byte = x: int | 0 <= x < 256
  type u16 = x: int | 0 <= x < 0x1_0000

  type ByteString = seq<byte>

  /** struct.unpack_from('<H', data, off) */
  function ReadU16(data: ByteString, off: nat): (v: u16)
    requires off + 2 <= |data|
  {
    data[off] as int + 256 * data[off + 1] as int
  }

  /** struct.pack('<H', v) */
  function Le16(v: u16): (b: ByteString)
    ensures |b| == 2 && ReadU16(b, 0) == v
  {
    [v % 256, v / 256]
  }

  /** Two bytes unpack to v exactly when they are what v packs to. */
  lemma Le16Unique(b: ByteString, v: u16)
    requires |b| == 2
    ensures ReadU16(b, 0) == v <==> b == Le16(v)
  {
  }

  /** struct.pack('>H', v) */
  function Be16(v: u16): (b: ByteString)
    ensures |b| == 2
  {
    [v / 256, v % 256]
  }

  lemma SliceOfSlice<T>(s: seq<T>, a: nat, b: nat, c: nat, d: nat)
    requires a <= b <= |s| && c <= d <= b - a
    ensures s[a..b][c..d] == s[a + c..a + d]
  {
    var u, v := s[a..b][c..d], s[a + c..a + d];
    assert |u| == |v| && forall i | 0 <= i < |u| :: u[i] == v[i];
  }

  function Flatten<T>(parts: seq<seq<T>>): seq<T> {
    if parts == [] then [] else parts[0] + Flatten(parts[1..])
  }

  lemma FlattenAppend<T>(a: seq<seq<T>>, b: seq<seq<T>>)
    ensures Flatten(a + b) == Flatten(a) + Flatten(b)
  {
    if a == [] {
      assert a + b == b;
    } else {
      assert (a + b)[0] == a[0] && (a + b)[1..] == a[1..] + b;
      FlattenAppend(a[1..], b);
    }
  }

  lemma FlattenSnoc<T>(a: seq<seq<T>>, last: seq<T>)
    ensures Flatten(a + [last]) == Flatten(a) + last
  {
    FlattenAppend(a, [last]);
    assert Flatten([last]) == last;
  }

  lemma FlattenTake<T>(parts: seq<seq<T>>, k: nat)
    requires k < |parts|
    ensures Flatten(parts[..k + 1]) == Flatten(parts[..k]) + parts[k]
  {
    assert parts[..k + 1] == parts[..k] + [parts[k]];
    FlattenSnoc(parts[..k], parts[k]);
  }

  lemma FlattenSplit<T>(parts: seq<seq<T>>, k: nat)
    requires k <= |parts|
    ensures Flatten(parts) == Flatten(parts[..k]) + Flatten(parts[k..])
  {
    assert parts == parts[..k] + parts[k..];
    FlattenAppend(parts[..k], parts[k..]);
  }

  lemma TakeAll<T>(a: seq<T>, b: seq<T>)
    requires b != []
    ensures (a + b)[..|a + b| - 1] == a + b[..|b| - 1] && (a + b)[|a + b| - 1] == b[|b| - 1]
  {
  }
}
