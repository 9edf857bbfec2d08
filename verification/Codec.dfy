/**
  Length-prefixed fields: writing them to a growing buffer and reading them back at an offset.
  A reader here yields nothing when it would have to look outside the data.
 */
module Codec {
  import opened Masks
  import opened Bytes
  import opened Types

  // ---- Writers --------------------------------------------------------------------------------

  /** A string with its 32-bit length in front. */
  function StringField(s: Text): (r: seq<byte>)
    ensures |r| == |s| + 4
  {
    U32(|s|) + s
  }

  /** Its bytes: the length, lowest byte first, and then the string. */
  lemma StringLayout(s: Text)
    requires Short(s)
    ensures Unsigned(StringField(s)[..4]) == |s| && StringField(s)[4..] == s
  {
    hide U32;
    U32Inverse(|s|);
    assert StringField(s)[..4] == U32(|s|);
  }

  function StringFields(ss: seq<Text>): seq<byte>
    decreases |ss|
  {
    if ss == [] then [] else StringField(ss[0]) + StringFields(ss[1..])
  }

  predicate Short(s: Text) { |s| < TWO_32 }

  predicate AllShort(ss: seq<Text>) {
    forall i :: 0 <= i < |ss| ==> Short(ss[i])
  }

  /** A `std::vector<uint8_t>` being filled. */
  class Buffer {
    var bytes: seq<byte>

    constructor ()
      ensures bytes == []
    {
      bytes := [];
    }

    method PushBack(b: byte)
      modifies this
      ensures bytes == old(bytes) + [b]
    {
      bytes := bytes + [b];
    }

    method WriteBytes(data: seq<byte>)
      modifies this
      ensures bytes == old(bytes) + data
    {
      bytes := bytes + data;
    }

    method WriteString(s: Text)
      modifies this
      ensures bytes == old(bytes) + StringField(s)
    {
      var len := U32(|s|);
      bytes := bytes + len;
      bytes := bytes + s;
    }
  }

  // ---- Readers --------------------------------------------------------------------------------

  type Reading<T> = Option<(T, nat)>

  function ReadFixed(data: seq<byte>, off: nat, width: nat): Reading<seq<byte>> {
    if off + width > |data| then None else Some((data[off..off + width], off + width))
  }

  function ReadString(data: seq<byte>, off: nat): Reading<Text> {
    if off + 4 > |data| then None
    else ReadFixed(data, off + 4, Unsigned(data[off..off + 4]))
  }

  function ReadStrings(data: seq<byte>, off: nat, count: nat): Reading<seq<Text>>
    decreases count
  {
    if count == 0 then Some(([], off))
    else
      match ReadString(data, off)
      case None => None
      case Some((s, next)) =>
        match ReadStrings(data, next, count - 1)
        case None => None
        case Some((rest, end)) => Some(([s] + rest, end))
  }

  function ReadI64(data: seq<byte>, off: nat): Reading<int>
  {
    if off + 8 > |data| then None
    else
      U64Of(data[off..off + 8]);
      Some((Signed64(Unsigned(data[off..off + 8])), off + 8))
  }

  /** A string is read exactly where it was written. */
  lemma StringExact(data: seq<byte>, off: nat, s: Text, next: nat)
    ensures ReadString(data, off) == Some((s, next)) <==>
            Short(s) && At(data, off, StringField(s)) && next == off + |StringField(s)|
  {
    hide U32, Unsigned;
    AtConcat(data, off, U32(|s|), s);
    if Short(s) {
      U32Inverse(|s|);
    }
    if off + 4 <= |data| {
      U32Of(data[off..off + 4]);
    }
  }

  lemma {:induction false} StringsExact(data: seq<byte>, off: nat, ss: seq<Text>, next: nat)
    requires off <= |data|
    ensures ReadStrings(data, off, |ss|) == Some((ss, next)) <==>
            AllShort(ss) && At(data, off, StringFields(ss)) && next == off + |StringFields(ss)|
    decreases |ss|
  {
    hide StringField, ReadString;
    if ss == [] {
      assert data[off..off] == [];
    } else {
      var first, rest := ss[0], ss[1..];
      var mid := off + |StringField(first)|;
      assert ss == [first] + rest;
      AtConcat(data, off, StringField(first), StringFields(rest));
      StringExact(data, off, first, mid);
      if ReadString(data, off) == Some((first, mid)) {
        StringsExact(data, mid, rest, next);
      }
      match ReadString(data, off) {
        case None =>
        case Some((s, m)) =>
          StringExact(data, off, s, m);
          ReadStringsLength(data, m, |rest|);
      }
    }
  }

  lemma {:induction false} ReadStringsLength(data: seq<byte>, off: nat, count: nat)
    ensures ReadStrings(data, off, count).Some? ==> |ReadStrings(data, off, count).value.0| == count
    decreases count
  {
    if count > 0 {
      match ReadString(data, off) {
        case None =>
        case Some((s, next)) => ReadStringsLength(data, next, count - 1);
      }
    }
  }

  lemma I64Exact(data: seq<byte>, off: nat, v: int, next: nat)
    ensures ReadI64(data, off) == Some((v, next)) <==> IsInt64(v) && At(data, off, I64(v)) && next == off + 8
  {
    hide U64, Unsigned;
    if IsInt64(v) {
      I64Inverse(v);
    }
    if off + 8 <= |data| {
      I64Of(data[off..off + 8]);
    }
  }
}
