/**
 The byte strings that are fed to the hashes and message authentication codes: calibration
 artifacts, passkey quota keys and restatement fingerprints.  Each encoder has a decoder that
 undoes it, so two different values can never be hashed as the same bytes.
 */
module ByteEncoding {
  import opened Common

  type Byte = b: int | 0 <= b < 256
  type Bytes = seq<Byte>

  const WORD := 0x1_0000_0000

  // ---------------------------------------------------------------- one value, then a list

  /** `dec` reads exactly one `enc(v)` off the front of any input and leaves the rest. */
  ghost predicate Undoes<V(!new)>(enc: V -> Bytes, dec: Bytes -> Option<(V, Bytes)>, v: V) {
    enc(v) != [] && forall rest: Bytes :: dec(enc(v) + rest) == Some((v, rest))
  }

  function EncodeAll<V>(vs: seq<V>, enc: V -> Bytes): Bytes {
    if vs == [] then [] else enc(vs[0]) + EncodeAll(vs[1..], enc)
  }

  function DecodeAll<V>(bytes: Bytes, dec: Bytes -> Option<(V, Bytes)>): Option<seq<V>>
    decreases |bytes|
  {
    if bytes == [] then Some([])
    else
      match dec(bytes)
      case None => None
      case Some((v, rest)) =>
        if |rest| >= |bytes| then None
        else
          match DecodeAll(rest, dec)
          case None => None
          case Some(vs) => Some([v] + vs)
  }

  /** A list code built from a prefix code is uniquely decodable. */
  lemma {:induction false} ListUndone<V(!new)>(vs: seq<V>, enc: V -> Bytes, dec: Bytes -> Option<(V, Bytes)>)
    requires forall v :: v in vs ==> Undoes(enc, dec, v)
    ensures DecodeAll(EncodeAll(vs, enc), dec) == Some(vs)
    decreases |vs|
  {
    if vs != [] {
      assert Undoes(enc, dec, vs[0]);
      var rest := EncodeAll(vs[1..], enc);
      assert dec(enc(vs[0]) + rest) == Some((vs[0], rest));
      ListUndone(vs[1..], enc, dec);
      assert vs == [vs[0]] + vs[1..];
    }
  }

  lemma {:induction false} EncodeAllSnoc<V>(vs: seq<V>, v: V, enc: V -> Bytes)
    ensures EncodeAll(vs + [v], enc) == EncodeAll(vs, enc) + enc(v)
    decreases |vs|
  {
    if vs == [] {
      assert vs + [v] == [v];
    } else {
      EncodeAllSnoc(vs[1..], v, enc);
      assert (vs + [v])[1..] == vs[1..] + [v];
    }
  }

  lemma EncodeNone<V>(vs: seq<V>, enc: V -> Bytes)
    ensures EncodeAll(vs[..0], enc) == []
  {
  }

  // ---------------------------------------------------------------- big-endian words and strings

  /** Big-endian; a value that does not fit 32 bits is truncated by the conversion. */
  function Word(n: nat): Bytes {
    var w := n % WORD;
    [w / 0x100 / 0x100 / 0x100, w / 0x100 / 0x100 % 0x100, w / 0x100 % 0x100, w % 0x100]
  }

  function Big(a: nat, b: nat, c: nat, d: nat): nat {
    ((a * 0x100 + b) * 0x100 + c) * 0x100 + d
  }

  function ReadWord(bytes: Bytes): Option<(nat, Bytes)> {
    if |bytes| < 4 then None else Some((Big(bytes[0], bytes[1], bytes[2], bytes[3]), bytes[4..]))
  }

  lemma BigOf(n: nat)
    ensures Big(n / 0x100 / 0x100 / 0x100, n / 0x100 / 0x100 % 0x100, n / 0x100 % 0x100, n % 0x100) == n
  {
    var n1 := n / 0x100;
    var n2 := n1 / 0x100;
    assert n2 / 0x100 * 0x100 + n2 % 0x100 == n2;
    assert n2 * 0x100 + n1 % 0x100 == n1;
  }

  lemma WordUndone(n: nat)
    requires n < WORD
    ensures Undoes(Word, ReadWord, n)
  {
    BigOf(n);
    hide Big;
    forall rest: Bytes ensures ReadWord(Word(n) + rest) == Some((n, rest)) {
      assert (Word(n) + rest)[4..] == rest;
    }
  }

  /** Length as a word, then the bytes themselves. */
  function Prefixed(value: Bytes): Bytes {
    Word(|value|) + value
  }

  function ReadPrefixed(bytes: Bytes): Option<(Bytes, Bytes)> {
    match ReadWord(bytes)
    case None => None
    case Some((n, rest)) => if n > |rest| then None else Some((rest[..n], rest[n..]))
  }

  lemma PrefixedUndone(value: Bytes)
    requires |value| < WORD
    ensures Undoes(Prefixed, ReadPrefixed, value)
  {
    WordUndone(|value|);
    forall rest: Bytes ensures ReadPrefixed(Prefixed(value) + rest) == Some((value, rest)) {
      assert Prefixed(value) + rest == Word(|value|) + (value + rest);
      assert ReadWord(Word(|value|) + (value + rest)) == Some((|value|, value + rest));
      assert (value + rest)[..|value|] == value && (value + rest)[|value|..] == rest;
    }
  }

  // ---------------------------------------------------------------- the hash object

  /** A hash is observed only through the bytes written to it so far. */
  class Hasher {
    var written: Bytes

    constructor ()
      ensures written == []
    {
      written := [];
    }

    method Write(bytes: Bytes)
      modifies this
      ensures written == old(written) + bytes
    {
      written := written + bytes;
    }

    method WriteWord(value: nat)
      modifies this
      ensures written == old(written) + Word(value)
    {
      Write(Word(value));
    }

    method WriteString(value: Bytes)
      modifies this
      ensures written == old(written) + Prefixed(value)
    {
      WriteWord(|value|);
      Write(value);
    }
  }

  // ---------------------------------------------------------------- calibration artifacts

  /** The hashed fields of a calibration artifact; the stored digest itself is excluded. */
  datatype Fields = Fields(
    schema: nat, policy: Bytes, bucket: Bytes, alpha: nat, sampleCount: nat, scores: seq<nat>)

  /** The widths the source's field types allow. */
  predicate Representable(f: Fields) {
    && f.schema < WORD && f.alpha < WORD && f.sampleCount < WORD
    && |f.policy| < WORD && |f.bucket| < WORD && |f.scores| < WORD
    && forall s :: s in f.scores ==> s < WORD
  }

  function EncodeFields(f: Fields): Bytes {
    Word(f.schema) + (Prefixed(f.policy) + (Prefixed(f.bucket) +
      (Word(f.alpha) + (Word(f.sampleCount) + (Word(|f.scores|) + EncodeAll(f.scores, Word))))))
  }

  function DecodeFields(bytes: Bytes): Option<Fields> {
    match ReadWord(bytes) case None => None case Some((schema, b1)) =>
    match ReadPrefixed(b1) case None => None case Some((policy, b2)) =>
    match ReadPrefixed(b2) case None => None case Some((bucket, b3)) =>
    match ReadWord(b3) case None => None case Some((alpha, b4)) =>
    match ReadWord(b4) case None => None case Some((count, b5)) =>
    match ReadWord(b5) case None => None case Some((length, b6)) =>
    match DecodeAll(b6, ReadWord) case None => None case Some(scores) =>
    if |scores| != length then None else Some(Fields(schema, policy, bucket, alpha, count, scores))
  }

  lemma FieldsUndone(f: Fields)
    requires Representable(f)
    ensures DecodeFields(EncodeFields(f)) == Some(f)
  {
    hide Word;
    hide ReadWord;
    hide Prefixed;
    hide ReadPrefixed;
    WordUndone(f.schema);
    PrefixedUndone(f.policy);
    PrefixedUndone(f.bucket);
    WordUndone(f.alpha);
    WordUndone(f.sampleCount);
    WordUndone(|f.scores|);
    forall s | s in f.scores ensures Undoes(Word, ReadWord, s) { WordUndone(s); }
    ListUndone(f.scores, Word, ReadWord);
  }

  /** Different artifacts are never hashed as the same bytes. */
  lemma FieldsInjective(f: Fields, g: Fields)
    requires Representable(f) && Representable(g)
    requires EncodeFields(f) == EncodeFields(g)
    ensures f == g
  {
    hide EncodeFields;
    hide DecodeFields;
    FieldsUndone(f);
    FieldsUndone(g);
  }

  method WriteFields(f: Fields) returns (digest: Hasher)
    ensures fresh(digest) && digest.written == EncodeFields(f)
  {
    hide Word;
    hide Prefixed;
    hide EncodeAll;
    digest := new Hasher();
    digest.WriteWord(f.schema);
    digest.WriteString(f.policy);
    digest.WriteString(f.bucket);
    digest.WriteWord(f.alpha);
    digest.WriteWord(f.sampleCount);
    digest.WriteWord(|f.scores|);
    ghost var header := digest.written;
    EncodeNone(f.scores, Word);
    for i := 0 to |f.scores|
      invariant digest.written == header + EncodeAll(f.scores[..i], Word)
    {
      EncodeAllSnoc(f.scores[..i], f.scores[i], Word);
      assert f.scores[..i + 1] == f.scores[..i] + [f.scores[i]];
      digest.WriteWord(f.scores[i]);
    }
    assert f.scores[..|f.scores|] == f.scores;
  }

  // ---------------------------------------------------------------- passkey quota keys

  /** The scope is written first, then every part, each behind its own length. */
  method WriteQuotaKey(scope: Bytes, parts: seq<Bytes>) returns (digest: Hasher)
    ensures fresh(digest) && digest.written == EncodeAll([scope] + parts, Prefixed)
  {
    digest := new Hasher();
    digest.WriteString(scope);
    for i := 0 to |parts|
      invariant digest.written == EncodeAll([scope] + parts[..i], Prefixed)
    {
      EncodeAllSnoc([scope] + parts[..i], parts[i], Prefixed);
      assert [scope] + parts[..i + 1] == [scope] + parts[..i] + [parts[i]];
      digest.WriteString(parts[i]);
    }
    assert parts[..|parts|] == parts;
  }

  ghost predicate Short(parts: seq<Bytes>) {
    forall p :: p in parts ==> |p| < WORD
  }

  lemma QuotaKeyUndone(parts: seq<Bytes>)
    requires Short(parts)
    ensures DecodeAll(EncodeAll(parts, Prefixed), ReadPrefixed) == Some(parts)
  {
    forall p | p in parts ensures Undoes(Prefixed, ReadPrefixed, p) { PrefixedUndone(p); }
    ListUndone(parts, Prefixed, ReadPrefixed);
  }

  /** Keys of different scopes, or with the same bytes cut differently, never coincide. */
  lemma QuotaKeysDistinct(scope: Bytes, parts: seq<Bytes>, scope': Bytes, parts': seq<Bytes>)
    requires Short([scope] + parts) && Short([scope'] + parts')
    ensures EncodeAll([scope] + parts, Prefixed) == EncodeAll([scope'] + parts', Prefixed)
       <==> scope == scope' && parts == parts'
  {
    QuotaKeyUndone([scope] + parts);
    QuotaKeyUndone([scope'] + parts');
    assert ([scope] + parts)[0] == scope && ([scope] + parts)[1..] == parts;
    assert ([scope'] + parts')[0] == scope' && ([scope'] + parts')[1..] == parts';
  }

  // ---------------------------------------------------------------- restatement fields

  const ZERO: Byte := 48
  const COLON: Byte := 58

  /** The decimal digits of `n`, most significant first, without leading zeros. */
  function Decimal(n: nat): Bytes {
    if n < 10 then [ZERO + n] else Decimal(n / 10) + [ZERO + n % 10]
  }

  /** Reads digits up to the colon. */
  function ReadDecimal(bytes: Bytes, acc: nat): Option<(nat, Bytes)>
    decreases |bytes|
  {
    if bytes == [] then None
    else if bytes[0] == COLON then Some((acc, bytes[1..]))
    else if ZERO <= bytes[0] < ZERO + 10 then ReadDecimal(bytes[1..], acc * 10 + (bytes[0] - ZERO))
    else None
  }

  lemma {:induction false} DecimalRead(n: nat, rest: Bytes)
    ensures ReadDecimal(Decimal(n) + rest, 0) == ReadDecimal(rest, n)
    decreases n
  {
    if n < 10 {
      assert (Decimal(n) + rest)[1..] == rest;
    } else {
      var last: Bytes := [ZERO + n % 10];
      assert Decimal(n) + rest == Decimal(n / 10) + (last + rest);
      DecimalRead(n / 10, last + rest);
      assert (last + rest)[1..] == rest;
    }
  }

  /** "decimal length:value". */
  function RestatementField(value: Bytes): Bytes {
    Decimal(|value|) + [COLON] + value
  }

  function ReadRestatementField(bytes: Bytes): Option<(Bytes, Bytes)> {
    match ReadDecimal(bytes, 0)
    case None => None
    case Some((n, rest)) => if n > |rest| then None else Some((rest[..n], rest[n..]))
  }

  lemma RestatementFieldUndone(value: Bytes)
    ensures Undoes(RestatementField, ReadRestatementField, value)
  {
    forall rest: Bytes ensures ReadRestatementField(RestatementField(value) + rest) == Some((value, rest)) {
      var tail := [COLON] + (value + rest);
      assert RestatementField(value) + rest == Decimal(|value|) + tail;
      DecimalRead(|value|, tail);
      assert tail[1..] == value + rest;
      assert (value + rest)[..|value|] == value && (value + rest)[|value|..] == rest;
    }
  }

  /** A fingerprint determines the operator, the slot and the clause it was made from. */
  lemma FingerprintInjective(fields: seq<Bytes>, fields': seq<Bytes>)
    ensures DecodeAll(EncodeAll(fields, RestatementField), ReadRestatementField) == Some(fields)
    ensures EncodeAll(fields, RestatementField) == EncodeAll(fields', RestatementField) <==> fields == fields'
  {
    forall f: Bytes ensures Undoes(RestatementField, ReadRestatementField, f) { RestatementFieldUndone(f); }
    ListUndone(fields, RestatementField, ReadRestatementField);
    ListUndone(fields', RestatementField, ReadRestatementField);
  }
}
