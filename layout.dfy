/** Packed records as lists of fixed-width fields, with the generic field-by-field
    encoder and decoder. A packed record has no padding: every field starts
    where the previous one ends. */
module Layout {
  import opened Bytes

  /** Field widths of the target: `int`, `unsigned int`, `uint32_t` are 4 bytes,
      `uint16_t` 2, `uint8_t`, `unsigned char`, `bool` and the packed tag enum 1;
      a fixed array of n bytes is n. */
  datatype Kind = U8 | Bool | U16 | U32 | I32 | Bytes(n: nat)

  /** The field names of the wire records, after their C member names
      (`block_length`, `cmd`, `returns`, `err_no`, `z__magicAndVersion`, ...). */
  datatype Name =
    | BlockLength | Cmd | Returns | ErrNo | Data | MagicAndVersion
    | Fd | GpioId | GpioFd | OutputMode | InitialValue | GpioValue | OutValue
    | I2cInterfaceId | Address | SpeedInHz | TimeoutInMs | Length | LenWriteData | LenReadData | MaxLength
    | InterfaceId | ChipSelectId | CsPolarity | Mode | Order | TransferCount | Flags
    | Pwm | PwmFd | PwmChannel | PeriodNsec | DutyCycleNsec | Polarity | Enabled
    | Id | Channel | ReferenceVoltage | OutSampleValue

  datatype Field = Field(name: Name, kind: Kind)

  datatype Value =
    | U8V(byte: uint8)
    | BoolV(flag: bool)
    | U16V(half: uint16)
    | U32V(word: uint32)
    | I32V(signed: int32)
    | BytesV(bytes: seq<uint8>)

  function Width(k: Kind): (w: nat)
    ensures w > 0 || k.Bytes?
  {
    match k
    case U8 => 1
    case Bool => 1
    case U16 => 2
    case U32 => 4
    case I32 => 4
    case Bytes(n) => n
  }

  /** The size of a packed record: the sum of its field widths. */
  function Size(layout: seq<Field>): nat
  {
    if layout == [] then 0 else Width(layout[0].kind) + Size(layout[1..])
  }

  /** Byte offset of field i: the sum of the widths of the fields before it. */
  function Offset(layout: seq<Field>, i: nat): (off: nat)
    requires i < |layout|
  {
    if i == 0 then 0 else Width(layout[0].kind) + Offset(layout[1..], i - 1)
  }

  /** Every field lies inside the record. */
  lemma {:induction false} OffsetBound(layout: seq<Field>, i: nat)
    requires i < |layout|
    ensures Offset(layout, i) + Width(layout[i].kind) <= Size(layout)
  {
    if i > 0 {
      assert layout[1..][i - 1] == layout[i];
      OffsetBound(layout[1..], i - 1);
    }
  }

  lemma {:induction false} SizeAppend(a: seq<Field>, b: seq<Field>)
    ensures Size(a + b) == Size(a) + Size(b)
  {
    if a != [] {
      assert (a + b)[1..] == a[1..] + b;
      SizeAppend(a[1..], b);
    } else {
      assert a + b == b;
    }
  }

  /** A layout whose fields are each at most w bytes wide takes at most
      w bytes per field. */
  lemma {:induction false} SizeAtMost(layout: seq<Field>, w: nat)
    requires forall i :: 0 <= i < |layout| ==> Width(layout[i].kind) <= w
    ensures Size(layout) <= w * |layout|
  {
    if layout != [] {
      var tail := layout[1..];
      forall i | 0 <= i < |tail| ensures Width(tail[i].kind) <= w {
        assert tail[i] == layout[i + 1];
      }
      SizeAtMost(tail, w);
      assert w * |layout| == w + w * |tail|;
    }
  }

  /** Width of field i, or 0 past the end of the layout. */
  function WidthAt(layout: seq<Field>, i: nat): nat
  {
    if i < |layout| then Width(layout[i].kind) else 0
  }

  /** The size of a layout of at most six fields, written out field by field,
      so that the size of a given layout follows from indexing alone. */
  lemma {:induction false} SizeOfShort(layout: seq<Field>)
    requires |layout| <= 6
    ensures Size(layout) == WidthAt(layout, 0) + WidthAt(layout, 1) + WidthAt(layout, 2)
                          + WidthAt(layout, 3) + WidthAt(layout, 4) + WidthAt(layout, 5)
  {
    if layout != [] {
      var tail := layout[1..];
      SizeOfShort(tail);
      forall i: nat | i < 5 ensures WidthAt(tail, i) == WidthAt(layout, i + 1) {
      }
    }
  }

  /** Offsets in a layout made of two parts: the second part's fields sit after
      the whole of the first. */
  lemma {:induction false} OffsetAppend(a: seq<Field>, b: seq<Field>, i: nat)
    requires i < |b|
    ensures Offset(a + b, |a| + i) == Size(a) + Offset(b, i)
  {
    if a == [] {
      assert a + b == b;
    } else {
      assert (a + b)[1..] == a[1..] + b;
      OffsetAppend(a[1..], b, i);
    }
  }

  /** The first two fields of the second part of a layout sit right after
      the whole of the first part, one after the other. */
  lemma {:induction false} PairAfter(front: seq<Field>, back: seq<Field>)
    requires |back| >= 2
    ensures (front + back)[|front|] == back[0] && (front + back)[|front| + 1] == back[1]
    ensures Offset(front + back, |front|) == Size(front)
    ensures Offset(front + back, |front| + 1) == Size(front) + Width(back[0].kind)
  {
    OffsetAppend(front, back, 0);
    OffsetAppend(front, back, 1);
    assert back[1..][0] == back[1];
  }

  /** Fields of the first part of a layout keep their offsets. */
  lemma {:induction false} OffsetPrefix(a: seq<Field>, b: seq<Field>, i: nat)
    requires i < |a|
    ensures Offset(a + b, i) == Offset(a, i)
  {
    if i > 0 {
      assert (a + b)[1..] == a[1..] + b;
      OffsetPrefix(a[1..], b, i - 1);
    }
  }

  /** Each field starts where the one before it ends. */
  lemma {:induction false} OffsetStep(layout: seq<Field>, i: nat)
    requires i + 1 < |layout|
    ensures Offset(layout, i + 1) == Offset(layout, i) + Width(layout[i].kind)
  {
    if i > 0 {
      OffsetStep(layout[1..], i - 1);
    }
  }

  /** The last field ends where the record ends. */
  lemma {:induction false} SizeAfterLast(layout: seq<Field>)
    requires layout != []
    ensures Size(layout) == Offset(layout, |layout| - 1) + Width(layout[|layout| - 1].kind)
  {
    if |layout| > 1 {
      SizeAfterLast(layout[1..]);
    }
  }

  /** The field kind a value belongs to. */
  function KindOf(v: Value): Kind
  {
    match v
    case U8V(_) => U8
    case BoolV(_) => Bool
    case U16V(_) => U16
    case U32V(_) => U32
    case I32V(_) => I32
    case BytesV(bs) => Bytes(|bs|)
  }

  /** v can be stored in a field of kind k. */
  predicate Fits(k: Kind, v: Value)
  {
    KindOf(v) == k
  }

  /** vs holds one value of the right kind per field of layout. */
  predicate Conforms(layout: seq<Field>, vs: seq<Value>)
  {
    |vs| == |layout| && forall i {:trigger Fits(layout[i].kind, vs[i])} :: 0 <= i < |vs| ==> Fits(layout[i].kind, vs[i])
  }

  function EncodeValue(v: Value): (bs: seq<uint8>)
    ensures v.U8V? || v.BoolV? ==> |bs| == 1
    ensures v.U16V? ==> |bs| == 2
    ensures v.U32V? || v.I32V? ==> |bs| == 4
    ensures v.BytesV? ==> bs == v.bytes
  {
    match v
    case U8V(b) => [b]
    case BoolV(f) => [if f then 1 else 0]
    case U16V(h) => EncodeLE(h, 2)
    case U32V(w) => EncodeLE(w, 4)
    case I32V(i) => EncodeInt32(i)
    case BytesV(bs) => bs
  }

  /** Reads one field from exactly its bytes. A `bool` byte other than 0 reads as true. */
  function DecodeValue(k: Kind, bs: seq<uint8>): (v: Value)
    requires |bs| == Width(k)
    ensures Fits(k, v)
  {
    match k
    case U8 => U8V(bs[0])
    case Bool => BoolV(bs[0] != 0)
    case U16 => assert Pow256(2) == TWO_TO_16; U16V(DecodeLE(bs))
    case U32 => assert Pow256(4) == TWO_TO_32; U32V(DecodeLE(bs))
    case I32 => I32V(DecodeInt32(bs))
    case Bytes(_) => BytesV(bs)
  }

  lemma {:induction false} ValueRoundTrip(k: Kind, v: Value)
    requires Fits(k, v)
    ensures DecodeValue(k, EncodeValue(v)) == v
  {
    match v
    case U16V(h) => assert Pow256(2) == TWO_TO_16; DecodeEncodeLE(h, 2);
    case U32V(w) => assert Pow256(4) == TWO_TO_32; DecodeEncodeLE(w, 4);
    case I32V(i) => Int32RoundTrip(i);
    case _ =>
  }

  /** Every kind but `bool` reads back to exactly the bytes it was read from. */
  lemma {:induction false} ValueBytesRoundTrip(k: Kind, bs: seq<uint8>)
    requires |bs| == Width(k) && k != Bool
    ensures EncodeValue(DecodeValue(k, bs)) == bs
  {
    match k
    case U16 => assert Pow256(2) == TWO_TO_16; EncodeDecodeLE(bs);
    case U32 => assert Pow256(4) == TWO_TO_32; EncodeDecodeLE(bs);
    case I32 => assert Pow256(4) == TWO_TO_32; EncodeDecodeLE(bs);
    case _ =>
  }

  /** A `bool` byte reads back as 0 or 1: any other nonzero byte is normalised. */
  lemma {:induction false} BoolBytesRoundTrip(b: uint8)
    ensures EncodeValue(DecodeValue(Bool, [b])) == [if b == 0 then 0 else 1]
  {
  }

  /** The packed encoding of a record: its fields' encodings one after another. */
  function EncodeFields(vs: seq<Value>): (bs: seq<uint8>)
  {
    if vs == [] then [] else EncodeValue(vs[0]) + EncodeFields(vs[1..])
  }

  lemma {:induction false} EncodedWidth(k: Kind, v: Value)
    requires Fits(k, v)
    ensures |EncodeValue(v)| == Width(k)
  {
  }

  lemma {:induction false} EncodedSize(layout: seq<Field>, vs: seq<Value>)
    requires Conforms(layout, vs)
    ensures |EncodeFields(vs)| == Size(layout)
  {
    if vs != [] {
      EncodedWidth(layout[0].kind, vs[0]);
      ConformsTail(layout, vs);
      EncodedSize(layout[1..], vs[1..]);
    }
  }

  /** Reads every field of layout at its offset; bytes past the record are ignored. */
  function DecodeFields(layout: seq<Field>, bs: seq<uint8>): (vs: seq<Value>)
    requires Size(layout) <= |bs|
    ensures |vs| == |layout|
  {
    seq(|layout|, i requires 0 <= i < |layout| =>
      OffsetBound(layout, i);
      DecodeValue(layout[i].kind, bs[Offset(layout, i)..Offset(layout, i) + Width(layout[i].kind)]))
  }

  /** Field i of an encoded record sits at Offset(layout, i). */
  lemma {:induction false} EncodedFieldAt(layout: seq<Field>, vs: seq<Value>, i: nat)
    requires Conforms(layout, vs) && i < |layout|
    ensures Offset(layout, i) + Width(layout[i].kind) <= |EncodeFields(vs)|
    ensures EncodeFields(vs)[Offset(layout, i)..Offset(layout, i) + Width(layout[i].kind)]
         == EncodeValue(vs[i])
    decreases |layout|, 1
  {
    EncodedSize(layout, vs);
    OffsetBound(layout, i);
    EncodedWidth(layout[0].kind, vs[0]);
    var head, tail := EncodeValue(vs[0]), EncodeFields(vs[1..]);
    assert EncodeFields(vs) == head + tail;
    if i > 0 {
      EncodedFieldStep(layout, vs, i);
    } else {
      SliceLeft(head, tail, 0, |head|);
    }
  }

  /** A one-byte field of an encoded record is the byte at its offset. */
  lemma {:induction false} EncodedByteAt(layout: seq<Field>, vs: seq<Value>, i: nat, b: uint8)
    requires Conforms(layout, vs) && i < |layout| && vs[i] == U8V(b)
    ensures Offset(layout, i) < |EncodeFields(vs)|
    ensures EncodeFields(vs)[Offset(layout, i)] == b
  {
    EncodedFieldAt(layout, vs, i);
    assert Fits(layout[i].kind, vs[i]);
    var off := Offset(layout, i);
    assert EncodeFields(vs)[off..off + 1] == [b];
    assert EncodeFields(vs)[off] == EncodeFields(vs)[off..off + 1][0];
  }

  lemma {:induction false} ConformsTail(layout: seq<Field>, vs: seq<Value>)
    requires Conforms(layout, vs) && vs != []
    ensures Conforms(layout[1..], vs[1..])
  {
    forall i | 0 <= i < |vs| - 1 ensures Fits(layout[1..][i].kind, vs[1..][i]) {
      assert Fits(layout[i + 1].kind, vs[i + 1]);
    }
  }

  lemma {:induction false} EncodedFieldStep(layout: seq<Field>, vs: seq<Value>, i: nat)
    requires Conforms(layout, vs) && 0 < i < |layout|
    ensures Offset(layout, i) + Width(layout[i].kind) <= |EncodeFields(vs)|
    ensures EncodeFields(vs)[Offset(layout, i)..Offset(layout, i) + Width(layout[i].kind)]
         == EncodeValue(vs[i])
    decreases |layout|, 0
  {
    ConformsTail(layout, vs);
    var l1, v1 := layout[1..], vs[1..];
    EncodedFieldAt(l1, v1, i - 1);
    assert l1[i - 1] == layout[i] && v1[i - 1] == vs[i];
    assert Fits(layout[0].kind, vs[0]);
    EncodedWidth(layout[0].kind, vs[0]);
    EncodeFieldsCons(vs);
    ShiftSlice(EncodeValue(vs[0]), EncodeFields(vs[1..]), EncodeFields(vs),
      Offset(layout[1..], i - 1), Width(layout[i].kind));
  }

  lemma {:induction false} EncodeFieldsCons(vs: seq<Value>)
    requires vs != []
    ensures EncodeFields(vs) == EncodeValue(vs[0]) + EncodeFields(vs[1..])
  {
  }

  /** A slice of the second part of a concatenation, seen from the whole. */
  lemma {:induction false} ShiftSlice(a: seq<uint8>, b: seq<uint8>, s: seq<uint8>, off: nat, w: nat)
    requires s == a + b && off + w <= |b|
    ensures |a| + off + w <= |s|
    ensures s[|a| + off..|a| + off + w] == b[off..off + w]
  {
  }

  lemma {:induction false} SliceOfPrefix(s: seq<uint8>, m: nat, lo: nat, hi: nat)
    requires lo <= hi <= m <= |s|
    ensures s[..m][lo..hi] == s[lo..hi]
  {
  }

  lemma {:induction false} SliceLeft(a: seq<uint8>, b: seq<uint8>, lo: nat, hi: nat)
    requires lo <= hi <= |a|
    ensures (a + b)[lo..hi] == a[lo..hi]
  {
  }

  lemma {:induction false} SliceRight(a: seq<uint8>, b: seq<uint8>, s: seq<uint8>, lo: nat, hi: nat)
    requires s == a + b && |a| <= lo <= hi <= |a| + |b|
    ensures s[lo..hi] == b[lo - |a|..hi - |a|]
  {
  }

  /** Decoding an encoded record, followed by any bytes, gives back its fields. */
  lemma {:induction false} DecodeEncodeFields(layout: seq<Field>, vs: seq<Value>, rest: seq<uint8>)
    requires Conforms(layout, vs)
    ensures Size(layout) <= |EncodeFields(vs) + rest|
    ensures DecodeFields(layout, EncodeFields(vs) + rest) == vs
  {
    EncodedSize(layout, vs);
    var enc := EncodeFields(vs);
    var ds := DecodeFields(layout, enc + rest);
    forall i | 0 <= i < |layout| ensures ds[i] == vs[i] {
      EncodedFieldAt(layout, vs, i);
      var off := Offset(layout, i);
      var w := Width(layout[i].kind);
      SliceLeft(enc, rest, off, off + w);
      ValueRoundTrip(layout[i].kind, vs[i]);
    }
  }

  /** No field of the layout is a `bool`. */
  predicate NoBool(layout: seq<Field>)
  {
    forall i :: 0 <= i < |layout| ==> layout[i].kind != Bool
  }

  lemma {:induction false} NoBoolAppend(a: seq<Field>, b: seq<Field>)
    requires NoBool(a) && NoBool(b)
    ensures NoBool(a + b)
  {
    forall i | 0 <= i < |a + b| ensures (a + b)[i].kind != Bool {
      if i < |a| {
        assert (a + b)[i] == a[i];
      } else {
        assert (a + b)[i] == b[i - |a|];
      }
    }
  }

  /** Decoding reads the first field from the first bytes and the rest after them. */
  lemma {:induction false} DecodeFieldsCons(layout: seq<Field>, bs: seq<uint8>)
    requires Size(layout) <= |bs| && layout != []
    ensures Width(layout[0].kind) <= |bs|
    ensures DecodeFields(layout, bs)
         == [DecodeValue(layout[0].kind, bs[..Width(layout[0].kind)])]
            + DecodeFields(layout[1..], bs[Width(layout[0].kind)..])
  {
    var w := Width(layout[0].kind);
    var a := DecodeFields(layout, bs);
    var b := DecodeFields(layout[1..], bs[w..]);
    forall i | 1 <= i < |layout| ensures a[i] == b[i - 1] {
      DecodedFieldShift(layout, bs, i);
    }
    assert a[0] == DecodeValue(layout[0].kind, bs[..w]);
    assert a == [a[0]] + b;
  }

  /** Field i of a record is field i - 1 of the record without its first field. */
  lemma {:induction false} DecodedFieldShift(layout: seq<Field>, bs: seq<uint8>, i: nat)
    requires Size(layout) <= |bs| && 1 <= i < |layout|
    ensures Width(layout[0].kind) + Size(layout[1..]) <= |bs|
    ensures DecodeFields(layout, bs)[i] == DecodeFields(layout[1..], bs[Width(layout[0].kind)..])[i - 1]
  {
    var w := Width(layout[0].kind);
    var tail := layout[1..];
    OffsetBound(layout, i);
    OffsetBound(tail, i - 1);
    assert tail[i - 1] == layout[i];
    var off := Offset(tail, i - 1);
    assert Offset(layout, i) == w + off;
    assert bs[w..][off..off + Width(layout[i].kind)] == bs[w + off..w + off + Width(layout[i].kind)];
  }

  lemma {:induction false} PrefixSplit(bs: seq<uint8>, w: nat, n: nat)
    requires w + n <= |bs|
    ensures bs[..w] + bs[w..][..n] == bs[..w + n]
  {
  }

  /** For a layout without `bool` fields, encoding the decoded fields gives back
      exactly the record's bytes: decoding loses nothing. */
  lemma {:induction false} EncodeDecodeFields(layout: seq<Field>, bs: seq<uint8>)
    requires Size(layout) <= |bs| && NoBool(layout)
    ensures EncodeFields(DecodeFields(layout, bs)) == bs[..Size(layout)]
  {
    if layout != [] {
      var w := Width(layout[0].kind);
      var tail := layout[1..];
      DecodeFieldsCons(layout, bs);
      var vs := DecodeFields(layout, bs);
      var rest := DecodeFields(tail, bs[w..]);
      assert vs == [vs[0]] + rest;
      assert vs[1..] == rest;
      assert NoBool(tail) by {
        forall i | 0 <= i < |tail| ensures tail[i].kind != Bool {
          assert tail[i] == layout[i + 1];
        }
      }
      EncodeDecodeFields(tail, bs[w..]);
      ValueBytesRoundTrip(layout[0].kind, bs[..w]);
      assert EncodeFields(vs) == bs[..w] + bs[w..][..Size(tail)];
      PrefixSplit(bs, w, Size(tail));
    } else {
      assert DecodeFields(layout, bs) == [];
    }
  }

  /** Decoded fields always fit their layout. */
  lemma {:induction false} DecodeConforms(layout: seq<Field>, bs: seq<uint8>)
    requires Size(layout) <= |bs|
    ensures Conforms(layout, DecodeFields(layout, bs))
  {
    var vs := DecodeFields(layout, bs);
    forall i | 0 <= i < |vs| ensures Fits(layout[i].kind, vs[i]) {
      DecodedFieldAt(layout, bs, i);
    }
  }

  /** The decoded field i is the value encoded at Offset(layout, i). */
  lemma {:induction false} DecodedFieldAt(layout: seq<Field>, bs: seq<uint8>, i: nat)
    requires Size(layout) <= |bs| && i < |layout|
    ensures Offset(layout, i) + Width(layout[i].kind) <= |bs|
    ensures DecodeFields(layout, bs)[i]
         == DecodeValue(layout[i].kind, bs[Offset(layout, i)..Offset(layout, i) + Width(layout[i].kind)])
  {
    OffsetBound(layout, i);
  }

  /** Decoding depends only on the bytes inside the record. */
  lemma {:induction false} DecodeLocal(layout: seq<Field>, bs: seq<uint8>, bs': seq<uint8>)
    requires Size(layout) <= |bs| && Size(layout) <= |bs'|
    requires bs[..Size(layout)] == bs'[..Size(layout)]
    ensures DecodeFields(layout, bs) == DecodeFields(layout, bs')
  {
    var a, b := DecodeFields(layout, bs), DecodeFields(layout, bs');
    forall i | 0 <= i < |layout| ensures a[i] == b[i] {
      DecodedFieldAt(layout, bs, i);
      DecodedFieldAt(layout, bs', i);
      OffsetBound(layout, i);
      var off := Offset(layout, i);
      var w := Width(layout[i].kind);
      SliceOfPrefix(bs, Size(layout), off, off + w);
      SliceOfPrefix(bs', Size(layout), off, off + w);
    }
  }

  /** Overwriting field i in place with an encoded value changes the decoded
      record in field i only. This is what a handler's `data->returns = ...` does. */
  lemma {:induction false} WriteField(layout: seq<Field>, bs: seq<uint8>, i: nat, v: Value)
    requires Size(layout) <= |bs| && i < |layout| && Fits(layout[i].kind, v)
    ensures Offset(layout, i) + |EncodeValue(v)| <= |bs|
    ensures DecodeFields(layout, Splice(bs, Offset(layout, i), EncodeValue(v)))
         == DecodeFields(layout, bs)[i := v]
  {
    EncodedWidth(layout[i].kind, v);
    OffsetBound(layout, i);
    var bs' := Splice(bs, Offset(layout, i), EncodeValue(v));
    var a, b := DecodeFields(layout, bs'), DecodeFields(layout, bs)[i := v];
    forall j | 0 <= j < |layout| ensures a[j] == b[j] {
      WriteFieldAt(layout, bs, i, v, j);
    }
  }

  lemma {:induction false} WriteFieldAt(layout: seq<Field>, bs: seq<uint8>, i: nat, v: Value, j: nat)
    requires Size(layout) <= |bs| && i < |layout| && j < |layout| && Fits(layout[i].kind, v)
    requires Offset(layout, i) + |EncodeValue(v)| <= |bs|
    ensures DecodeFields(layout, Splice(bs, Offset(layout, i), EncodeValue(v)))[j]
         == DecodeFields(layout, bs)[i := v][j]
  {
    var off := Offset(layout, i);
    var w := EncodeValue(v);
    var bs' := Splice(bs, off, w);
    var offJ := Offset(layout, j);
    var wJ := Width(layout[j].kind);
    DecodedFieldAt(layout, bs', j);
    if j == i {
      EncodedWidth(layout[i].kind, v);
      assert bs'[offJ..offJ + wJ] == w;
      ValueRoundTrip(layout[i].kind, v);
    } else {
      DecodedFieldAt(layout, bs, j);
      EncodedWidth(layout[i].kind, v);
      OffsetsDisjoint(layout, i, j);
      SpliceOutside(bs, off, w, offJ, offJ + wJ);
    }
  }

  /** Copying w over the front of a byte-array field, as `memcpy(data->data, src, n)`
      does, changes the decoded record in that field only, and there exactly
      its first |w| bytes. */
  lemma {:induction false} WriteBytesFront(layout: seq<Field>, bs: seq<uint8>, i: nat, w: seq<uint8>)
    requires Size(layout) <= |bs| && i < |layout| && layout[i].kind.Bytes? && |w| <= layout[i].kind.n
    ensures Offset(layout, i) + |w| <= |bs|
    ensures DecodeFields(layout, bs)[i].BytesV? && |DecodeFields(layout, bs)[i].bytes| == layout[i].kind.n
    ensures DecodeFields(layout, Splice(bs, Offset(layout, i), w))
         == DecodeFields(layout, bs)[i := BytesV(Splice(DecodeFields(layout, bs)[i].bytes, 0, w))]
  {
    var off, n := Offset(layout, i), layout[i].kind.n;
    DecodedFieldAt(layout, bs, i);
    var cur := bs[off..off + n];
    assert Splice(bs, off, cur) == bs;
    SpliceOver(bs, off, cur, w);
    WriteField(layout, bs, i, BytesV(Splice(cur, 0, w)));
  }

  /** Distinct fields occupy disjoint byte ranges. */
  lemma {:induction false} OffsetsDisjoint(layout: seq<Field>, i: nat, j: nat)
    requires i < |layout| && j < |layout| && i != j
    ensures Offset(layout, i) + Width(layout[i].kind) <= Offset(layout, j)
         || Offset(layout, j) + Width(layout[j].kind) <= Offset(layout, i)
  {
    if i > 0 && j > 0 {
      OffsetsDisjoint(layout[1..], i - 1, j - 1);
    }
  }
}
