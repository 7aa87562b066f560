/** Schemas, values and tuples as bytes: `src/common/types.h`, and the concatenation of tuples
  in `src/executor/hash_join.cpp`.
 */
module Types {
  import opened Page
  import opened Values
  import opened Decimal

  /** INT, or VARCHAR with its declared length. */
  datatype ColumnType = IntColumn | Varchar(maxLen: nat)
  {
    function FixedSize(): nat {
      if IntColumn? then 4 else maxLen
    }
  }

  // --------------------------------------------------------------------- schema

  /** The offset of column `i`; the offset of the end is the tuple size. */
  function Offset(types: seq<ColumnType>, i: nat): nat
    requires i <= |types|
  {
    if i == 0 then 0 else Offset(types, i - 1) + types[i - 1].FixedSize()
  }

  function Size(types: seq<ColumnType>): nat {
    Offset(types, |types|)
  }

  /** The loop of the `Schema` constructor. */
  method Layout(types: seq<ColumnType>) returns (offsets: seq<nat>, size: nat)
    ensures |offsets| == |types| && size == Size(types)
    ensures forall i :: 0 <= i < |types| ==> offsets[i] == Offset(types, i)
    ensures types != [] ==> offsets[0] == 0 && size == offsets[|types| - 1] + types[|types| - 1].FixedSize()
    ensures forall i :: 0 < i < |types| ==> offsets[i] == offsets[i - 1] + types[i - 1].FixedSize()
  {
    offsets, size := [], 0;
    for i := 0 to |types|
      invariant |offsets| == i && size == Offset(types, i)
      invariant forall j :: 0 <= j < i ==> offsets[j] == Offset(types, j)
    {
      offsets := offsets + [size];
      size := size + types[i].FixedSize();
    }
  }

  /** Columns occupy disjoint ranges, in order, within the tuple. */
  lemma {:induction false} ColumnsDisjoint(types: seq<ColumnType>, i: nat, j: nat)
    requires i < j <= |types|
    ensures Offset(types, i) + types[i].FixedSize() <= Offset(types, j)
    decreases j
  {
    if i < j - 1 { ColumnsDisjoint(types, i, j - 1); }
  }

  lemma {:induction false} OffsetPrefix(l: seq<ColumnType>, r: seq<ColumnType>, i: nat)
    requires i <= |l|
    ensures Offset(l + r, i) == Offset(l, i)
  {
    if i > 0 { OffsetPrefix(l, r, i - 1); }
  }

  lemma {:induction false} OffsetSuffix(l: seq<ColumnType>, r: seq<ColumnType>, j: nat)
    requires j <= |r|
    ensures Offset(l + r, |l| + j) == Size(l) + Offset(r, j)
  {
    if j == 0 { OffsetPrefix(l, r, |l|); } else { OffsetSuffix(l, r, j - 1); }
  }

  // --------------------------------------------------------------------- values

  /** A 32-bit integer in memory, least significant byte first. */
  function Bytes32(v: int): (r: seq<Byte>)
    requires IsInt32(v)
    ensures |r| == 4
  {
    var u: int := if v < 0 then v + 0x1_0000_0000 else v;
    [(u % 256) as Byte, (u / 256 % 256) as Byte, (u / 65536 % 256) as Byte, (u / 16777216) as Byte]
  }

  function Int32Of(b: seq<Byte>): int
    requires |b| == 4
  {
    var u := b[0] as int + 256 * b[1] as int + 65536 * b[2] as int + 16777216 * b[3] as int;
    if u >= 0x8000_0000 then u - 0x1_0000_0000 else u
  }

  /** The bytes are those of the number, or of its complement to 2^32 if it is negative. */
  lemma IntBytes(v: int)
    requires IsInt32(v)
    ensures var b := Bytes32(v);
            b[0] as int + 256 * (b[1] as int + 256 * (b[2] as int + 256 * b[3] as int)) == if v < 0 then 0x1_0000_0000 + v else v
  {
    IntRoundTrip(v);
  }

  lemma IntRoundTrip(v: int)
    requires IsInt32(v)
    ensures Int32Of(Bytes32(v)) == v
  {
    var u := if v < 0 then v + 0x1_0000_0000 else v;
    assert u / 65536 == u / 256 / 256 && u / 16777216 == u / 65536 / 256;
  }

  /** The characters of a `std::string` are bytes. */
  predicate ByteString(s: string) {
    forall i :: 0 <= i < |s| ==> s[i] as int < 256
  }

  function TextBytes(s: string): (r: seq<Byte>)
    requires ByteString(s)
    ensures |r| == |s| && forall i :: 0 <= i < |s| ==> r[i] as int == s[i] as int
  {
    seq(|s|, i requires 0 <= i < |s| => s[i] as int as Byte)
  }

  function TextOf(b: seq<Byte>): (s: string)
    ensures |s| == |b| && ByteString(s) && forall i :: 0 <= i < |b| ==> s[i] as int == b[i] as int
  {
    seq(|b|, i requires 0 <= i < |b| => b[i] as int as char)
  }

  function Zeros(n: nat): (r: seq<Byte>)
    ensures |r| == n && forall i :: 0 <= i < n ==> r[i] == 0
  {
    seq(n, _ => 0)
  }

  function Cut(s: string, n: nat): string {
    if |s| <= n then s else s[..n]
  }

  /** `strnlen`: the position of the first zero byte, or the length. */
  function Strnlen(b: seq<Byte>): (n: nat)
    ensures n <= |b| && (n < |b| ==> b[n] == 0) && forall i :: 0 <= i < n ==> b[i] != 0
  {
    if b == [] || b[0] == 0 then 0 else 1 + Strnlen(b[1..])
  }

  /** The value has the kind of its column and is representable. */
  predicate Fits(v: Value, t: ColumnType) {
    if t.IntColumn? then v.IntValue? && IsInt32(v.int_) else v.StrValue? && ByteString(v.str)
  }

  /** The bytes that `SerializeTo` writes. */
  function Encode(v: Value, t: ColumnType): (r: seq<Byte>)
    requires Fits(v, t)
    ensures |r| == t.FixedSize()
    ensures t.Varchar? ==> forall i :: 0 <= i < t.maxLen ==> r[i] as int == if i < |v.str| then v.str[i] as int else 0
  {
    if t.IntColumn? then Bytes32(v.int_)
    else Padded(v.str, t.maxLen)
  }

  /** `DeserializeFrom`. */
  function Decode(b: seq<Byte>, t: ColumnType): (v: Value)
    requires |b| == t.FixedSize()
    ensures t.IntColumn? <==> v.IntValue?
  {
    if t.IntColumn? then IntValue(Int32Of(b)) else StrValue(TextOf(b[..Strnlen(b)]))
  }

  /** What can be stored without loss: any INT, and a VARCHAR that is not longer than its
      column and has no zero character. */
  predicate Storable(v: Value, t: ColumnType) {
    t.IntColumn? || (v.StrValue? && |v.str| <= t.maxLen && NoZero(v.str))
  }

  /** A value reads back if and only if it is storable. */
  lemma ValueRoundTrip(v: Value, t: ColumnType)
    requires Fits(v, t)
    ensures Decode(Encode(v, t), t) == v <==> Storable(v, t)
  {
    if t.IntColumn? {
      IntRoundTrip(v.int_);
    } else {
      TextRoundTrip(v.str, t.maxLen);
    }
  }

  /** What is left of a text in a column: its longest prefix that fits and has no zero character. */
  ghost predicate KeptPart(s: string, n: nat, r: string) {
    && r <= s && |r| <= n && NoZero(r)
    && forall q: string :: q <= s && |q| <= n && NoZero(q) ==> |q| <= |r|
  }

  /** Whatever is stored in a VARCHAR column, this reads back: characters beyond the length of
      the column, or behind a zero character, are dropped. */
  lemma TextReadsBack(s: string, n: nat)
    requires ByteString(s)
    ensures var v := Decode(Encode(StrValue(s), Varchar(n)), Varchar(n)); v.StrValue? && KeptPart(s, n, v.str)
  {
    var b := Encode(StrValue(s), Varchar(n));
    var k := Strnlen(b);
    var r := TextOf(b[..k]);
    assert |s| < |b| ==> b[|s|] == 0;
    forall i | 0 <= i < k ensures r[i] == s[i] && r[i] as int != 0 {
      assert b[..k][i] == b[i];
    }
    assert r == s[..k];
    forall q: string | q <= s && |q| <= n && NoZero(q) ensures |q| <= k {
      assert forall i :: 0 <= i < |q| ==> q[i] == s[i] && b[i] != 0;
    }
  }

  predicate NoZero(s: string) {
    forall i :: 0 <= i < |s| ==> s[i] as int != 0
  }

  function Padded(s: string, n: nat): (b: seq<Byte>)
    requires ByteString(s)
    ensures |b| == n
  {
    TextBytes(Cut(s, n)) + Zeros(n - |Cut(s, n)|)
  }

  lemma TextRoundTrip(s: string, n: nat)
    requires ByteString(s)
    ensures TextOf(Padded(s, n)[..Strnlen(Padded(s, n))]) == s <==> |s| <= n && NoZero(s)
  {
    var b := Padded(s, n);
    var k := Strnlen(b);
    if |s| <= n && NoZero(s) {
      ZeroAtEnd(b, |s|);
      assert b[..k] == TextBytes(s);
      forall i | 0 <= i < |s| ensures TextOf(TextBytes(s))[i] == s[i] {
      }
    }
  }

  lemma ZeroAtEnd(b: seq<Byte>, k: nat)
    requires k <= |b| && (forall i :: 0 <= i < k ==> b[i] != 0) && (forall i :: k <= i < |b| ==> b[i] == 0)
    ensures Strnlen(b) == k
  {
    assert k < |b| ==> b[k] == 0;
  }

  // --------------------------------------------------------------------- tuples

  predicate AllFit(values: seq<Value>, types: seq<ColumnType>) {
    |values| == |types| && forall i :: 0 <= i < |values| ==> Fits(values[i], types[i])
  }

  function Overwrite(data: seq<Byte>, off: nat, field: seq<Byte>): (r: seq<Byte>)
    requires off + |field| <= |data|
    ensures |r| == |data| && forall j :: 0 <= j < |r| ==> r[j] == if off <= j < off + |field| then field[j - off] else data[j]
  {
    data[..off] + field + data[off + |field|..]
  }

  /** `SerializeTo`: writes the field in place and nothing else. */
  method SerializeTo(v: Value, t: ColumnType, dst: array<Byte>, off: nat)
    requires Fits(v, t) && off + t.FixedSize() <= dst.Length
    modifies dst
    ensures dst[..] == Overwrite(old(dst[..]), off, Encode(v, t))
    ensures t.Varchar? ==> forall i :: 0 <= i < t.maxLen ==> dst[..][off + i] as int == if i < |v.str| then v.str[i] as int else 0
  {
    var field := Encode(v, t);
    for i := 0 to |field|
      invariant forall j :: 0 <= j < dst.Length ==> dst[j] == if off <= j < off + i then field[j - off] else old(dst[j])
    {
      dst[off + i] := field[i];
    }
    assert dst[..] == Overwrite(old(dst[..]), off, field);
  }

  /** The `Tuple` constructor: every column of the new tuple reads back as its value does. */
  method MakeTuple(values: seq<Value>, types: seq<ColumnType>) returns (data: array<Byte>)
    requires AllFit(values, types)
    ensures fresh(data) && data.Length == Size(types)
    ensures Written(data[..], values, types, |types|)
  {
    var offsets, size := Layout(types);
    data := new Byte[size](_ => 0);
    for i := 0 to |values|
      invariant fresh(data) && data.Length == size && Written(data[..], values, types, i)
    {
      InRange(types, i);
      WrittenStep(data[..], values, types, i);
      SerializeTo(values[i], types[i], data, offsets[i]);
    }
  }

  /** The first `i` columns hold their values. */
  ghost predicate Written(data: seq<Byte>, values: seq<Value>, types: seq<ColumnType>, i: nat)
    requires AllFit(values, types) && i <= |types|
  {
    |data| == Size(types) && forall j :: 0 <= j < i ==> Field(data, types, j) == Encode(values[j], types[j])
  }

  lemma WrittenStep(data: seq<Byte>, values: seq<Value>, types: seq<ColumnType>, i: nat)
    requires AllFit(values, types) && i < |types| && Written(data, values, types, i)
    requires Offset(types, i) + types[i].FixedSize() <= |data|
    ensures Written(Overwrite(data, Offset(types, i), Encode(values[i], types[i])), values, types, i + 1)
  {
    var field := Encode(values[i], types[i]);
    var data' := Overwrite(data, Offset(types, i), field);
    forall j | 0 <= j < i + 1 ensures Field(data', types, j) == Encode(values[j], types[j]) {
      FieldAfter(data, types, i, field, j);
    }
  }

  lemma InRange(types: seq<ColumnType>, i: nat)
    requires i < |types|
    ensures Offset(types, i) + types[i].FixedSize() <= Size(types)
  {
    ColumnsDisjoint(types, i, |types|);
  }

  /** The bytes of column `i`. */
  function Field(data: seq<Byte>, types: seq<ColumnType>, i: nat): (r: seq<Byte>)
    requires |data| == Size(types) && i < |types|
    ensures |r| == types[i].FixedSize()
  {
    InRange(types, i);
    data[Offset(types, i)..Offset(types, i) + types[i].FixedSize()]
  }

  /** Writing a field leaves the earlier ones alone. */
  lemma FieldAfter(data: seq<Byte>, types: seq<ColumnType>, i: nat, field: seq<Byte>, j: nat)
    requires |data| == Size(types) && j <= i < |types| && |field| == types[i].FixedSize()
    requires Offset(types, i) + |field| <= |data|
    ensures Field(Overwrite(data, Offset(types, i), field), types, j) == if j == i then field else Field(data, types, j)
  {
    if j < i { ColumnsDisjoint(types, j, i); }
  }

  /** `Tuple::GetValue`. */
  function GetValue(data: seq<Byte>, types: seq<ColumnType>, i: nat): Value
    requires |data| == Size(types) && i < |types|
  {
    Decode(Field(data, types, i), types[i])
  }

  /** A tuple built from values gives back each of them if and only if it is storable. */
  lemma TupleRoundTrip(values: seq<Value>, types: seq<ColumnType>, data: seq<Byte>, i: nat)
    requires AllFit(values, types) && Written(data, values, types, |types|) && i < |types|
    ensures GetValue(data, types, i) == values[i] <==> Storable(values[i], types[i])
  {
    ValueRoundTrip(values[i], types[i]);
  }

  /** And in any case a VARCHAR column of the tuple gives back what its length keeps. */
  lemma TupleKeeps(values: seq<Value>, types: seq<ColumnType>, data: seq<Byte>, i: nat)
    requires AllFit(values, types) && Written(data, values, types, |types|) && i < |types| && types[i].Varchar?
    ensures var v := GetValue(data, types, i); v.StrValue? && KeptPart(values[i].str, types[i].maxLen, v.str)
  {
    TextReadsBack(values[i].str, types[i].maxLen);
  }

  /** `Concat`: the bytes of both tuples, as the schemas say how many. */
  function ConcatTuples(l: seq<Byte>, r: seq<Byte>, lt: seq<ColumnType>, rt: seq<ColumnType>): (out: seq<Byte>)
    requires |l| >= Size(lt) && |r| >= Size(rt)
    ensures |out| == Size(lt + rt)
  {
    OffsetSuffix(lt, rt, |rt|);
    l[..Size(lt)] + r[..Size(rt)]
  }

  /** Each column of the concatenated row reads as in the row it came from. */
  lemma ConcatReadsBack(l: seq<Byte>, r: seq<Byte>, lt: seq<ColumnType>, rt: seq<ColumnType>)
    requires |l| == Size(lt) && |r| == Size(rt)
    ensures forall i :: 0 <= i < |lt| ==> GetValue(ConcatTuples(l, r, lt, rt), lt + rt, i) == GetValue(l, lt, i)
    ensures forall j :: 0 <= j < |rt| ==> GetValue(ConcatTuples(l, r, lt, rt), lt + rt, |lt| + j) == GetValue(r, rt, j)
  {
    var out := ConcatTuples(l, r, lt, rt);
    forall i | 0 <= i < |lt| ensures Field(out, lt + rt, i) == Field(l, lt, i) {
      OffsetPrefix(lt, rt, i);
      InRange(lt, i);
    }
    forall j | 0 <= j < |rt| ensures Field(out, lt + rt, |lt| + j) == Field(r, rt, j) {
      OffsetSuffix(lt, rt, j);
      InRange(rt, j);
      InRange(lt + rt, |lt| + j);
      OffsetSuffix(lt, rt, |rt|);
    }
  }
}
