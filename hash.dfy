/** Package hash: per-type hash functions that feed a fixed byte encoding of a key, together
    with a seed, to the runtime's maphash digest and keep the low 32 bits; a type dispatch
    that picks one of them for a key type; and a layout hasher for structs that mixes the
    hashes of the struct's scalar fields. */
module Hash {
  import opened GoTypes

  /** A maphash.Seed.  Its state is private to the runtime; the model only compares seeds. */
  datatype Seed = Seed(state: Uint64)

  /** Hasher[T]: a seeded 32-bit hash function. */
  type Hasher<!T> = (Seed, T) -> Uint32

  /** maphash.Bytes: the runtime's seeded 64-bit digest of a byte string, left uninterpreted.
      maphash.String of a string and a maphash.Hash fed the same bytes agree with it. */
  type Digest = (Seed, seq<Byte>) -> Uint64

  /** uint32(maphash.Bytes(seed, b)): the low 32 bits of the digest. */
  function Sum32(digest: Digest, seed: Seed, b: seq<Byte>): Uint32
  {
    digest(seed, b) % 0x1_0000_0000
  }

  // ---------------------------------------------------------------------------------------
  // Fixed-width little-endian encodings (encoding/binary.LittleEndian.PutUintN)

  /** 256^w, the number of values w bytes can hold. */
  function Pow256(w: nat): (r: nat)
    ensures r >= 1
  {
    if w == 0 then 1 else 0x100 * Pow256(w - 1)
  }

  /** The widths the hashers use, as numbers. */
  lemma Pow256Values()
    ensures Pow256(1) == 0x100 && Pow256(2) == 0x1_0000
    ensures Pow256(4) == 0x1_0000_0000 && Pow256(8) == 0x1_0000_0000_0000_0000
  {
    assert Pow256(1) == 0x100;
    assert Pow256(2) == 0x1_0000;
    assert Pow256(3) == 0x100_0000;
    assert Pow256(4) == 0x1_0000_0000;
    assert Pow256(5) == 0x100_0000_0000;
    assert Pow256(6) == 0x1_0000_0000_0000;
    assert Pow256(7) == 0x100_0000_0000_0000;
  }

  /** The w bytes of v, least significant first; bits above 8w are dropped, as a Go
      conversion to a narrower unsigned type drops them. */
  function EncodeUnsigned(v: nat, w: nat): (b: seq<Byte>)
    ensures |b| == w
  {
    if w == 0 then [] else [v % 0x100] + EncodeUnsigned(v / 0x100, w - 1)
  }

  /** The number a little-endian byte string stands for. */
  function DecodeUnsigned(b: seq<Byte>): (v: nat)
    ensures v < Pow256(|b|)
  {
    if |b| == 0 then 0 else b[0] + 0x100 * DecodeUnsigned(b[1..])
  }

  /** Two's complement: a byte string whose top bit is set stands for a negative number. */
  function DecodeSigned(b: seq<Byte>): int
    requires |b| > 0
  {
    var u := DecodeUnsigned(b);
    if u < Half(|b|) then u else u - Pow256(|b|)
  }

  /** 2^(8w - 1): where the negative w-byte numbers begin. */
  function Half(w: nat): (r: nat)
    requires w > 0
    ensures 2 * r == Pow256(w)
  {
    0x80 * Pow256(w - 1)
  }

  /** The bytes of a signed number: Go's `uintN(n)` conversion is n modulo 2^(8w), which
      Dafny's Euclidean `%` computes for negative n too. */
  function EncodeSigned(n: int, w: nat): (b: seq<Byte>)
    ensures |b| == w
  {
    var m := Pow256(w);
    Wrap(n, m);
    EncodeUnsigned(n % m, w)
  }

  /** n modulo m lies in [0, m), and is n itself, or n + m, near zero. */
  lemma Wrap(n: int, m: int)
    requires m > 0
    ensures 0 <= n % m < m
    ensures 0 <= n < m ==> n % m == n
    ensures -m <= n < 0 ==> n % m == n + m
  {
  }

  /** The numbers w bytes can stand for. */
  predicate InRange(n: int, w: nat, signed: bool)
  {
    if signed then w > 0 && -(Half(w) as int) <= n < Half(w) else 0 <= n < Pow256(w)
  }

  /** b is a w-byte little-endian encoding of n. */
  predicate Encodes(b: seq<Byte>, w: nat, n: int, signed: bool)
  {
    |b| == w && (if signed then w > 0 && DecodeSigned(b) == n else DecodeUnsigned(b) == n)
  }

  /** Decoding recovers the value that was encoded. */
  lemma {:induction false} DecodeEncodeUnsigned(v: nat, w: nat)
    requires v < Pow256(w)
    ensures DecodeUnsigned(EncodeUnsigned(v, w)) == v
  {
    if w > 0 {
      var b := EncodeUnsigned(v, w);
      assert v / 0x100 < Pow256(w - 1);
      DecodeEncodeUnsigned(v / 0x100, w - 1);
      assert b[1..] == EncodeUnsigned(v / 0x100, w - 1);
    }
  }

  /** Encoding what was decoded gives back the same bytes. */
  lemma {:induction false} EncodeDecodeUnsigned(b: seq<Byte>)
    ensures EncodeUnsigned(DecodeUnsigned(b), |b|) == b
  {
    if |b| > 0 {
      var v := DecodeUnsigned(b);
      var rest := DecodeUnsigned(b[1..]);
      assert v % 0x100 == b[0] && v / 0x100 == rest;
      EncodeDecodeUnsigned(b[1..]);
      assert b == [b[0]] + b[1..];
    }
  }

  /** A w-byte encoding of a number in range exists and is unique, signed or not. */
  lemma {:induction false} EncodingUnique(n: int, w: nat, signed: bool)
    requires InRange(n, w, signed)
    ensures signed ==> Encodes(EncodeSigned(n, w), w, n, true)
    ensures !signed ==> Encodes(EncodeUnsigned(n, w), w, n, false)
    ensures forall b :: Encodes(b, w, n, signed) ==>
      b == if signed then EncodeSigned(n, w) else EncodeUnsigned(n, w)
  {
    if signed {
      SignedUnique(n, w);
    } else {
      DecodeEncodeUnsigned(n, w);
      forall b | Encodes(b, w, n, false) ensures b == EncodeUnsigned(n, w) {
        EncodeDecodeUnsigned(b);
      }
    }
  }

  lemma {:induction false} SignedUnique(n: int, w: nat)
    requires InRange(n, w, true)
    ensures Encodes(EncodeSigned(n, w), w, n, true)
    ensures forall b :: Encodes(b, w, n, true) ==> b == EncodeSigned(n, w)
  {
    var m := Pow256(w);
    Wrap(n, m);
    var u := n % m;
    DecodeEncodeUnsigned(u, w);
    assert DecodeUnsigned(EncodeSigned(n, w)) == u;
    forall b | Encodes(b, w, n, true) ensures b == EncodeSigned(n, w) {
      EncodeDecodeUnsigned(b);
      assert DecodeUnsigned(b) == u;
    }
  }

  /** A negative number and its two's-complement reinterpretation have the same bytes. */
  lemma {:induction false} SignedAsUnsigned(n: int, w: nat)
    requires InRange(n, w, true)
    ensures InRange(n % Pow256(w), w, false)
    ensures forall b :: Encodes(b, w, n, true) <==> Encodes(b, w, n % Pow256(w), false)
  {
    EncodingUnique(n, w, true);
    EncodingUnique(n % Pow256(w), w, false);
  }

  /** The digest of the w-byte encoding of n.  Every per-type hasher below is one of these. */
  function HashNumber(digest: Digest, seed: Seed, n: int, w: nat, signed: bool): (r: Uint32)
    requires InRange(n, w, signed)
    ensures forall b :: Encodes(b, w, n, signed) ==> r == Sum32(digest, seed, b)
  {
    EncodingUnique(n, w, signed);
    Sum32(digest, seed, if signed then EncodeSigned(n, w) else EncodeUnsigned(n, w))
  }

  // ---------------------------------------------------------------------------------------
  // The per-type hashers: each digests the fixed-width little-endian bytes of its argument.
  // Go's int, uint and uintptr are 64 bits wide here.

  /** IntHasher: the 8 bytes of uint64(n). */
  function IntHasher(digest: Digest, seed: Seed, n: int): (r: Uint32)
    requires IsInt64(n)
    ensures forall b :: Encodes(b, 8, n, true) ==> r == Sum32(digest, seed, b)
  {
    Pow256Values();
    HashNumber(digest, seed, n, 8, true)
  }

  /** Int8Hasher: the single byte byte(n). */
  function Int8Hasher(digest: Digest, seed: Seed, n: int): (r: Uint32)
    requires -0x80 <= n < 0x80
    ensures forall b :: Encodes(b, 1, n, true) ==> r == Sum32(digest, seed, b)
  {
    Pow256Values();
    HashNumber(digest, seed, n, 1, true)
  }

  function Int16Hasher(digest: Digest, seed: Seed, n: int): (r: Uint32)
    requires -0x8000 <= n < 0x8000
    ensures forall b :: Encodes(b, 2, n, true) ==> r == Sum32(digest, seed, b)
  {
    Pow256Values();
    HashNumber(digest, seed, n, 2, true)
  }

  function Int32Hasher(digest: Digest, seed: Seed, n: int): (r: Uint32)
    requires -0x8000_0000 <= n < 0x8000_0000
    ensures forall b :: Encodes(b, 4, n, true) ==> r == Sum32(digest, seed, b)
  {
    Pow256Values();
    HashNumber(digest, seed, n, 4, true)
  }

  function Int64Hasher(digest: Digest, seed: Seed, n: int): (r: Uint32)
    requires IsInt64(n)
    ensures forall b :: Encodes(b, 8, n, true) ==> r == Sum32(digest, seed, b)
  {
    Pow256Values();
    HashNumber(digest, seed, n, 8, true)
  }

  function UintHasher(digest: Digest, seed: Seed, n: Uint64): (r: Uint32)
    ensures forall b :: Encodes(b, 8, n, false) ==> r == Sum32(digest, seed, b)
  {
    Pow256Values();
    HashNumber(digest, seed, n, 8, false)
  }

  function Uint8Hasher(digest: Digest, seed: Seed, n: Byte): (r: Uint32)
    ensures forall b :: Encodes(b, 1, n, false) ==> r == Sum32(digest, seed, b)
  {
    Pow256Values();
    HashNumber(digest, seed, n, 1, false)
  }

  function Uint16Hasher(digest: Digest, seed: Seed, n: int): (r: Uint32)
    requires 0 <= n < 0x1_0000
    ensures forall b :: Encodes(b, 2, n, false) ==> r == Sum32(digest, seed, b)
  {
    Pow256Values();
    HashNumber(digest, seed, n, 2, false)
  }

  function Uint32Hasher(digest: Digest, seed: Seed, n: Uint32): (r: Uint32)
    ensures forall b :: Encodes(b, 4, n, false) ==> r == Sum32(digest, seed, b)
  {
    Pow256Values();
    HashNumber(digest, seed, n, 4, false)
  }

  function Uint64Hasher(digest: Digest, seed: Seed, n: Uint64): (r: Uint32)
    ensures forall b :: Encodes(b, 8, n, false) ==> r == Sum32(digest, seed, b)
  {
    Pow256Values();
    HashNumber(digest, seed, n, 8, false)
  }

  function UintptrHasher(digest: Digest, seed: Seed, n: Uint64): (r: Uint32)
    ensures forall b :: Encodes(b, 8, n, false) ==> r == Sum32(digest, seed, b)
  {
    Pow256Values();
    HashNumber(digest, seed, n, 8, false)
  }

  /** Float32Hasher, given the IEEE bit pattern math.Float32bits(f). */
  function Float32Hasher(digest: Digest, seed: Seed, bits: Uint32): (r: Uint32)
    ensures forall b :: Encodes(b, 4, bits, false) ==> r == Sum32(digest, seed, b)
  {
    Pow256Values();
    HashNumber(digest, seed, bits, 4, false)
  }

  /** Float64Hasher, given the IEEE bit pattern math.Float64bits(f). */
  function Float64Hasher(digest: Digest, seed: Seed, bits: Uint64): (r: Uint32)
    ensures forall b :: Encodes(b, 8, bits, false) ==> r == Sum32(digest, seed, b)
  {
    Pow256Values();
    HashNumber(digest, seed, bits, 8, false)
  }

  /** BoolHasher: the single byte 1 for true and 0 for false. */
  function BoolHasher(digest: Digest, seed: Seed, v: bool): (r: Uint32)
    ensures forall b :: Encodes(b, 1, if v then 1 else 0, false) ==> r == Sum32(digest, seed, b)
    ensures r == Sum32(digest, seed, if v then [1] else [0])
  {
    Pow256Values();
    assert Encodes(if v then [1] else [0], 1, if v then 1 else 0, false);
    HashNumber(digest, seed, if v then 1 else 0, 1, false)
  }

  /** int and int64 values hash alike, and so do an int8 and the uint8 with the same bits:
      the encodings are the same bytes. */
  lemma {:induction false} IntHashesAsInt64(digest: Digest, seed: Seed, n: int)
    requires IsInt64(n)
    ensures IntHasher(digest, seed, n) == Int64Hasher(digest, seed, n)
  {
    Pow256Values();
    EncodingUnique(n, 8, true);
  }

  lemma {:induction false} SignedHashesAsUnsigned(digest: Digest, seed: Seed, n: int, w: nat)
    requires InRange(n, w, true)
    ensures InRange(n % Pow256(w), w, false)
    ensures HashNumber(digest, seed, n, w, true) == HashNumber(digest, seed, n % Pow256(w), w, false)
  {
    SignedAsUnsigned(n, w);
    EncodingUnique(n, w, true);
  }

  lemma {:induction false} Int8MinusOneIsUint8Max(digest: Digest, seed: Seed, n: int)
    requires n == -1
    ensures Int8Hasher(digest, seed, n) == Uint8Hasher(digest, seed, 0xFF)
  {
    Pow256Values();
    SignedHashesAsUnsigned(digest, seed, n, 1);
    Wrap(n, 0x100);
  }

  // ---------------------------------------------------------------------------------------
  // Kinds and the per-kind hash of a stored value

  /** reflect.Kind. */
  datatype Kind =
    | Invalid | Bool | Int | Int8 | Int16 | Int32 | Int64
    | Uint | Uint8 | Uint16 | Uint32 | Uint64 | Uintptr | Float32 | Float64
    | Complex64 | Complex128 | Array | Chan | Func | Interface | Map | Pointer | Slice
    | String | Struct | UnsafePointer

  /** The kinds stored as a fixed-width number.  Floats are held as their bit pattern and
      pointers as their address. */
  predicate IsNumeric(k: Kind)
  {
    k.Int? || k.Int8? || k.Int16? || k.Int32? || k.Int64? || k.Uint? || k.Uint8? || k.Uint16?
    || k.Uint32? || k.Uint64? || k.Uintptr? || k.Float32? || k.Float64? || k.Pointer?
    || k.UnsafePointer?
  }

  /** The seventeen kinds flattenStruct keeps and the struct hasher knows how to hash. */
  predicate IsScalar(k: Kind)
  {
    IsNumeric(k) || k.String? || k.Bool?
  }

  predicate IsSigned(k: Kind)
  {
    k.Int? || k.Int8? || k.Int16? || k.Int32? || k.Int64?
  }

  /** The number of bytes a numeric kind is hashed as. */
  function Width(k: Kind): (w: nat)
    requires IsNumeric(k)
    ensures w == 1 || w == 2 || w == 4 || w == 8
  {
    match k
    case Int8 | Uint8 => 1
    case Int16 | Uint16 => 2
    case Int32 | Uint32 | Float32 => 4
    case _ => 8
  }

  /** A value held in memory by a key or a struct field. */
  datatype Value = Number(n: int) | Text(s: seq<Byte>) | Flag(b: bool)

  /** The value is one a variable of kind k can hold. */
  predicate Fits(k: Kind, v: Value)
  {
    if IsNumeric(k) then v.Number? && InRange(v.n, Width(k), IsSigned(k))
    else if k.String? then v.Text?
    else if k.Bool? then v.Flag?
    else true
  }

  /** The switch of the struct hasher, and of the closures GetHashFunc returns for the
      predeclared types: the hasher picked by the kind, applied to the value. */
  function KindHash(digest: Digest, seed: Seed, k: Kind, v: Value): (r: Uint32)
    requires Fits(k, v)
    ensures IsNumeric(k) ==>
      forall b :: Encodes(b, Width(k), v.n, IsSigned(k)) ==> r == Sum32(digest, seed, b)
    ensures k.String? ==> r == Sum32(digest, seed, v.s)
    ensures k.Bool? ==> r == Sum32(digest, seed, if v.b then [1] else [0])
    ensures !IsScalar(k) ==> r == 0
  {
    if IsNumeric(k) then NumberHash(digest, seed, k, v.n)
    else if k.String? then Sum32(digest, seed, v.s)
    else if k.Bool? then BoolHasher(digest, seed, v.b)
    else 0
  }

  /** The numeric cases of that switch: each goes to the hasher of its own type. */
  function NumberHash(digest: Digest, seed: Seed, k: Kind, n: int): (r: Uint32)
    requires IsNumeric(k) && InRange(n, Width(k), IsSigned(k))
    ensures r == HashNumber(digest, seed, n, Width(k), IsSigned(k))
  {
    Pow256Values();
    match k
    case Int => IntHasher(digest, seed, n)
    case Int8 => Int8Hasher(digest, seed, n)
    case Int16 => Int16Hasher(digest, seed, n)
    case Int32 => Int32Hasher(digest, seed, n)
    case Int64 => Int64Hasher(digest, seed, n)
    case Uint => UintHasher(digest, seed, n)
    case Uint8 => Uint8Hasher(digest, seed, n)
    case Uint16 => Uint16Hasher(digest, seed, n)
    case Uint32 => Uint32Hasher(digest, seed, n)
    case Uint64 => Uint64Hasher(digest, seed, n)
    case Uintptr => UintptrHasher(digest, seed, n)
    case Float32 => Float32Hasher(digest, seed, n)
    case Float64 => Float64Hasher(digest, seed, n)
    case Pointer | UnsafePointer => HashNumber(digest, seed, n, 8, false)
  }

  // ---------------------------------------------------------------------------------------
  // Types, as reflect sees them, and the flattening of a struct into field descriptors

  /** A Go type: its kind; whether it is one of the predeclared types string, int, ..., bool
      (rather than a type defined from one); whether it has the Hash method of Hashable and a
      String method; and, for a struct, its fields in declaration order. */
  datatype GoType = GoType(kind: Kind, predeclared: bool, hashable: bool, stringer: bool, fields: seq<Field>)

  /** A struct field: its name, its byte offset in the struct, and its type. */
  datatype Field = Field(name: string, offset: nat, typ: GoType)

  /** fieldInfo: where a scalar field lies in the key and of what kind it is. */
  datatype FieldInfo = FieldInfo(offset: nat, kind: Kind)

  /** flattenStruct(st, base): the descriptors of st's fields, nested structs expanded in place. */
  function Flatten(st: GoType, base: nat): seq<FieldInfo>
    decreases st, 1
  {
    FlattenFields(st, base, |st.fields|)
  }

  /** The descriptors of the first n fields of st. */
  function FlattenFields(st: GoType, base: nat, n: nat): seq<FieldInfo>
    requires n <= |st.fields|
    decreases st, 0, n
  {
    if n == 0 then []
    else
      var before := FlattenFields(st, base, n - 1);
      var f := st.fields[n - 1];
      if f.name == "_" then before
      else if IsScalar(f.typ.kind) then before + [FieldInfo(base + f.offset, f.typ.kind)]
      else if f.typ.kind.Struct? then before + Flatten(f.typ, base + f.offset)
      else before
  }

  /** flattenStruct's loop: blank fields are skipped, scalar fields give one descriptor, struct
      fields are flattened recursively at their own offset, and every other kind is dropped. */
  method FlattenStruct(st: GoType, baseOffset: nat) returns (fields: seq<FieldInfo>)
    ensures fields == Flatten(st, baseOffset)
    decreases st
  {
    fields := [];
    for i := 0 to |st.fields|
      invariant fields == FlattenFields(st, baseOffset, i)
    {
      var f := st.fields[i];
      if f.name == "_" {
        continue;
      }
      var kind := f.typ.kind;
      if IsScalar(kind) {
        fields := fields + [FieldInfo(baseOffset + f.offset, kind)];
      } else if kind.Struct? {
        var nested := FlattenStruct(f.typ, baseOffset + f.offset);
        fields := fields + nested;
      }
    }
  }

  /** Every descriptor is of a scalar kind and lies at or after the base offset. */
  lemma {:induction false} FlattenScalars(st: GoType, base: nat)
    ensures forall i :: 0 <= i < |Flatten(st, base)| ==>
      IsScalar(Flatten(st, base)[i].kind) && Flatten(st, base)[i].offset >= base
    decreases st, 1
  {
    FlattenFieldsScalars(st, base, |st.fields|);
  }

  lemma {:induction false} FlattenFieldsScalars(st: GoType, base: nat, n: nat)
    requires n <= |st.fields|
    ensures forall i :: 0 <= i < |FlattenFields(st, base, n)| ==>
      IsScalar(FlattenFields(st, base, n)[i].kind) && FlattenFields(st, base, n)[i].offset >= base
    decreases st, 0, n
  {
    if n > 0 {
      FlattenFieldsScalars(st, base, n - 1);
      var f := st.fields[n - 1];
      if f.name != "_" && !IsScalar(f.typ.kind) && f.typ.kind.Struct? {
        FlattenScalars(f.typ, base + f.offset);
      }
    }
  }

  /** Flattening at base b places every descriptor b bytes further than flattening at 0:
      nested offsets accumulate. */
  lemma {:induction false} FlattenShift(st: GoType, base: nat)
    ensures |Flatten(st, base)| == |Flatten(st, 0)|
    ensures forall i :: 0 <= i < |Flatten(st, base)| ==>
      Flatten(st, base)[i] == FieldInfo(base + Flatten(st, 0)[i].offset, Flatten(st, 0)[i].kind)
    decreases st, 1
  {
    FlattenFieldsShift(st, base, |st.fields|);
  }

  lemma {:induction false} FlattenFieldsShift(st: GoType, base: nat, n: nat)
    requires n <= |st.fields|
    ensures |FlattenFields(st, base, n)| == |FlattenFields(st, 0, n)|
    ensures forall i :: 0 <= i < |FlattenFields(st, base, n)| ==>
      FlattenFields(st, base, n)[i]
        == FieldInfo(base + FlattenFields(st, 0, n)[i].offset, FlattenFields(st, 0, n)[i].kind)
    decreases st, 0, n
  {
    if n > 0 {
      FlattenFieldsShift(st, base, n - 1);
      var f := st.fields[n - 1];
      if f.name != "_" && !IsScalar(f.typ.kind) && f.typ.kind.Struct? {
        FlattenShift(f.typ, base + f.offset);
        FlattenShift(f.typ, f.offset);
        var p: seq<FieldInfo> := FlattenFields(st, base, n - 1);
        var q: seq<FieldInfo> := FlattenFields(st, 0, n - 1);
        var x: seq<FieldInfo> := Flatten(f.typ, base + f.offset);
        var y: seq<FieldInfo> := Flatten(f.typ, f.offset);
        var px, qy := p + x, q + y;
        forall i | 0 <= i < |px| ensures px[i] == FieldInfo(base + qy[i].offset, qy[i].kind) {
          if i >= |p| {
            assert px[i] == x[i - |p|] && qy[i] == y[i - |p|];
          }
        }
      }
    }
  }

  /** A struct whose fields are all named and scalar gives one descriptor per field, in
      declaration order. */
  lemma {:induction false} FlattenFlat(st: GoType, base: nat, n: nat)
    requires n <= |st.fields|
    requires forall i :: 0 <= i < |st.fields| ==> st.fields[i].name != "_" && IsScalar(st.fields[i].typ.kind)
    ensures |FlattenFields(st, base, n)| == n
    ensures forall i :: 0 <= i < n ==>
      FlattenFields(st, base, n)[i] == FieldInfo(base + st.fields[i].offset, st.fields[i].typ.kind)
  {
    if n > 0 {
      FlattenFlat(st, base, n - 1);
    }
  }

  /** A struct with no named field of a kept kind gives no descriptors. */
  lemma {:induction false} FlattenNothing(st: GoType, base: nat, n: nat)
    requires n <= |st.fields|
    requires forall i :: 0 <= i < |st.fields| ==>
      st.fields[i].name == "_" || !(IsScalar(st.fields[i].typ.kind) || st.fields[i].typ.kind.Struct?)
    ensures FlattenFields(st, base, n) == []
  {
    if n > 0 {
      FlattenNothing(st, base, n - 1);
    }
  }

  // ---------------------------------------------------------------------------------------
  // The struct hasher: h ^= fHash + 0x9e3779b9 + (h << 6) + (h >> 2), in uint32, per field

  /** One mixing step. */
  function Mix(h: bv32, fieldHash: Uint32): bv32
  {
    h ^ ((fieldHash as bv32) + 0x9e3779b9 + (h << 6) + (h >> 2))
  }

  /** The steps over a sequence of field hashes, from h = 0, in order. */
  function MixAll(hs: seq<Uint32>): bv32
  {
    if |hs| == 0 then 0 else Mix(MixAll(hs[..|hs| - 1]), hs[|hs| - 1])
  }

  /** One more field hash is one more mixing step. */
  lemma {:induction false} MixAllStep(hs: seq<Uint32>, i: nat)
    requires i < |hs|
    ensures MixAll(hs[..i + 1]) == Mix(MixAll(hs[..i]), hs[i])
  {
    assert hs[..i + 1][..i] == hs[..i];
  }

  /** The values read at every descriptor's offset fit the descriptor's kind. */
  predicate Typed(fields: seq<FieldInfo>, memory: nat -> Value)
  {
    forall i :: 0 <= i < |fields| ==> Fits(fields[i].kind, memory(fields[i].offset))
  }

  /** The hash of each field, read at its offset and hashed by its kind. */
  function FieldHashes(digest: Digest, seed: Seed, fields: seq<FieldInfo>, memory: nat -> Value): (hs: seq<Uint32>)
    requires Typed(fields, memory)
    ensures |hs| == |fields|
    ensures forall i :: 0 <= i < |fields| ==>
      hs[i] == KindHash(digest, seed, fields[i].kind, memory(fields[i].offset))
  {
    if |fields| == 0 then []
    else
      var last := fields[|fields| - 1];
      FieldHashes(digest, seed, fields[..|fields| - 1], memory)
        + [KindHash(digest, seed, last.kind, memory(last.offset))]
  }

  /** What the closure of CreateStructHasher returns for a key laid out as memory. */
  function StructHash(digest: Digest, seed: Seed, fields: seq<FieldInfo>, memory: nat -> Value): Uint32
    requires Typed(fields, memory)
  {
    MixAll(FieldHashes(digest, seed, fields, memory)) as int
  }

  /** The loop of that closure over the descriptors. */
  method StructHasher(digest: Digest, seed: Seed, fields: seq<FieldInfo>, memory: nat -> Value) returns (h: Uint32)
    requires Typed(fields, memory)
    ensures h == StructHash(digest, seed, fields, memory)
  {
    var acc: bv32 := 0;
    ghost var hs := FieldHashes(digest, seed, fields, memory);
    for i := 0 to |fields|
      invariant acc == MixAll(hs[..i])
    {
      var fieldHash := KindHash(digest, seed, fields[i].kind, memory(fields[i].offset));
      MixAllStep(hs, i);
      acc := Mix(acc, fieldHash);
    }
    assert hs[..|fields|] == hs;
    h := acc as int;
  }

  /** Keys that hold the same values at every descriptor's offset hash alike, whatever else
      they hold. */
  lemma {:induction false} StructHashDeterminedByFields(digest: Digest, seed: Seed, fields: seq<FieldInfo>,
                                                        m1: nat -> Value, m2: nat -> Value)
    requires Typed(fields, m1)
    requires forall i :: 0 <= i < |fields| ==> m1(fields[i].offset) == m2(fields[i].offset)
    ensures Typed(fields, m2)
    ensures StructHash(digest, seed, fields, m1) == StructHash(digest, seed, fields, m2)
  {
    var h1 := FieldHashes(digest, seed, fields, m1);
    var h2 := FieldHashes(digest, seed, fields, m2);
    assert forall i :: 0 <= i < |fields| ==> h1[i] == h2[i];
    assert h1 == h2;
  }

  /** A struct with no descriptors hashes to 0 under every seed. */
  lemma {:induction false} EmptyStructHashesZero(digest: Digest, seed: Seed, fields: seq<FieldInfo>, memory: nat -> Value)
    requires |fields| == 0
    ensures Typed(fields, memory) && StructHash(digest, seed, fields, memory) == 0
  {
  }

  // ---------------------------------------------------------------------------------------
  // GetHashFunc

  /** The kinds of the predeclared types the type switch of GetHashFunc names. */
  predicate IsBasic(k: Kind)
  {
    (IsNumeric(k) && !k.Pointer? && !k.UnsafePointer?) || k.String? || k.Bool?
  }

  /** The hash function GetHashFunc[K] returns, by what it does with a key. */
  datatype Strategy =
    | Primitive(kind: Kind)          // one of the per-type hashers
    | Layout(fields: seq<FieldInfo>) // CreateStructHasher over these descriptors
    | SelfHash                       // the key's own Hash(seed)
    | StringerHash                   // the digest of the key's String()
    | SeedOnly                       // a maphash.Hash that is written nothing
    | Panic                          // GetHashFunc itself panics

  /** GetHashFunc[K] for the type K: the predeclared types first, then structs by layout
      (before any Hash method is looked at), then Hashable, then Stringer, then nothing.
      An interface type K has no dynamic type for its zero value, so reflect.TypeOf gives nil
      and asking it for its kind panics. */
  function GetHashFunc(k: GoType): (s: Strategy)
    ensures s.Panic? <==> k.kind.Interface?
    ensures s.Primitive? <==> k.predeclared && IsBasic(k.kind)
    ensures s.Primitive? ==> s.kind == k.kind
    ensures k.kind.Struct? ==> s == Layout(Flatten(k, 0))
    ensures s.SelfHash? <==>
      k.hashable && !(k.predeclared && IsBasic(k.kind)) && !k.kind.Struct? && !k.kind.Interface?
  {
    if k.predeclared && IsBasic(k.kind) then Primitive(k.kind)
    else if k.kind.Interface? then Panic
    else if k.kind.Struct? then Layout(Flatten(k, 0))
    else if k.hashable then SelfHash
    else if k.stringer then StringerHash
    else SeedOnly
  }

  /** What a hash function needs of a key: its value, the values at each offset of its
      memory, its Hash method and its String method. */
  datatype Key = Key(value: Value, memory: nat -> Value, hash: Seed -> Uint32, text: seq<Byte>)

  /** The key is one the strategy can hash (Go's typing guarantees this). */
  predicate Suits(s: Strategy, key: Key)
  {
    match s
    case Primitive(kind) => Fits(kind, key.value)
    case Layout(fields) => Typed(fields, key.memory)
    case Panic => false
    case _ => true
  }

  /** The returned closure applied to a seed and a key. */
  function HashKey(s: Strategy, digest: Digest, seed: Seed, key: Key): Uint32
    requires Suits(s, key)
  {
    match s
    case Primitive(kind) => KindHash(digest, seed, kind, key.value)
    case Layout(fields) => StructHash(digest, seed, fields, key.memory)
    case SelfHash => key.hash(seed)
    case StringerHash => Sum32(digest, seed, key.text)
    case SeedOnly => Sum32(digest, seed, [])
  }

  /** A struct key is hashed by its layout even when it has a Hash method: two keys that agree
      on their scalar fields hash alike, whatever their Hash and String methods say. */
  lemma {:induction false} StructIgnoresMethods(k: GoType, digest: Digest, seed: Seed, a: Key, b: Key)
    requires k.kind.Struct? && Suits(GetHashFunc(k), a)
    requires forall i :: 0 <= i < |Flatten(k, 0)| ==>
      a.memory(Flatten(k, 0)[i].offset) == b.memory(Flatten(k, 0)[i].offset)
    ensures Suits(GetHashFunc(k), b)
    ensures HashKey(GetHashFunc(k), digest, seed, a) == HashKey(GetHashFunc(k), digest, seed, b)
  {
    StructHashDeterminedByFields(digest, seed, Flatten(k, 0), a.memory, b.memory);
  }

  /** A type with a String method (and no Hash method, not a struct) hashes as the string its
      String method returns. */
  lemma {:induction false} StringerHashesItsString(k: GoType, digest: Digest, seed: Seed, key: Key)
    requires GetHashFunc(k).StringerHash?
    ensures Suits(GetHashFunc(k), key)
    ensures HashKey(GetHashFunc(k), digest, seed, key) == KindHash(digest, seed, String, Text(key.text))
  {
  }

  /** Any other type writes nothing: all its keys collide, on the hash of the empty string. */
  lemma {:induction false} FallbackIgnoresKey(k: GoType, digest: Digest, seed: Seed, a: Key, b: Key)
    requires !k.predeclared && !k.kind.Interface? && !k.kind.Struct? && !k.hashable && !k.stringer
    ensures GetHashFunc(k) == SeedOnly
    ensures HashKey(GetHashFunc(k), digest, seed, a) == HashKey(GetHashFunc(k), digest, seed, b)
      == KindHash(digest, seed, String, Text([]))
  {
  }
}
