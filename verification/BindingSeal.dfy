/** The preimage of the eligibility binding seal (internal/analyticsource/eligibility_binding.go). */
module BindingSeal {
  import opened Octets
  import opened Seqs

  const DOMAIN: seq<byte> := [
    107, 110, 111, 119, 118, 97, 117, 108, 116, 46, 97, 110, 97, 108, 121, 116, 105, 99, 115, 111, 117, 114, 99, 101, 46,
    101, 108, 105, 103, 105, 98, 105, 108, 105, 116, 121, 45, 98, 105, 110, 100, 105, 110, 103, 46, 118, 50]

  type Text = seq<byte>

  datatype ProfileKey = ProfileKey(datasetId: Text, version: int)

  datatype BindingFacts = BindingFacts(
    workspaceId: Text, workspaceRevision: int, workspaceConfigurationHash: Text, workspaceSourceId: Text,
    sourceScopeId: Text, sourceScopeRevision: int, sourceScopeConfigurationHash: Text,
    connectionId: Text, connectionRevision: int,
    databaseIdentity: Text, schemaName: Text, relationName: Text)

  datatype ExecutionFacts = ExecutionFacts(
    projectionLineageId: Text, projectionRevision: int, projectionContractHash: Text,
    exposedSchemaRevision: int, exposedSchemaHash: Text)

  /** Everything the seal covers. */
  datatype Sealed = Sealed(key: ProfileKey, profileHash: Text, binding: BindingFacts, execution: ExecutionFacts)

  const TWO_64 := 0x1_0000_0000_0000_0000

  predicate IsInt64(n: int) {
    -0x8000_0000_0000_0000 <= n < 0x8000_0000_0000_0000
  }

  /** uint64(n): two's complement. */
  function Unsigned(n: int): (u: int)
    requires IsInt64(n)
    ensures 0 <= u < TWO_64
  {
    if n < 0 then n + TWO_64 else n
  }

  /** Every unsigned 64-bit number is the two's complement of exactly one signed one. */
  lemma UnsignedIsOnto(u: int) returns (n: int)
    requires 0 <= u < TWO_64
    ensures IsInt64(n) && Unsigned(n) == u
    ensures forall m :: IsInt64(m) && Unsigned(m) == u ==> m == n
  {
    n := if u < 0x8000_0000_0000_0000 then u else u - TWO_64;
  }

  /** The k low bytes of u, most significant first. */
  function BigEndian(u: int, k: nat): (b: seq<byte>)
    requires u >= 0
    ensures |b| == k
  {
    if k == 0 then [] else BigEndian(u / 256, k - 1) + [(u % 256) as byte]
  }

  function Power256(k: nat): (p: nat)
    ensures p > 0
  {
    if k == 0 then 1 else 256 * Power256(k - 1)
  }

  lemma {:induction false} BigEndianIsInjective(u: int, v: int, k: nat)
    requires 0 <= u < Power256(k) && 0 <= v < Power256(k) && BigEndian(u, k) == BigEndian(v, k)
    ensures u == v
  {
    if k == 0 {
    } else {
      var a, b := BigEndian(u, k), BigEndian(v, k);
      assert a[..k - 1] == BigEndian(u / 256, k - 1) && b[..k - 1] == BigEndian(v / 256, k - 1);
      assert a[k - 1] == (u % 256) as byte && b[k - 1] == (v % 256) as byte;
      BigEndianIsInjective(u / 256, v / 256, k - 1);
    }
  }

  lemma EightBytes()
    ensures Power256(8) == TWO_64
  {
    assert Power256(2) == 65536;
    assert Power256(4) == 256 * (256 * Power256(2));
    assert Power256(6) == 256 * (256 * Power256(4));
    assert Power256(8) == 256 * (256 * Power256(6));
  }

  // ----- the encoding -----

  function AppendUint64(encoded: seq<byte>, u: int): seq<byte>
    requires u >= 0
  {
    encoded + BigEndian(u, 8)
  }

  /** appendSealString */
  function AppendSealString(encoded: seq<byte>, value: Text): seq<byte> {
    AppendUint64(encoded, |value|) + value
  }

  /** appendSealRevision */
  function AppendSealRevision(encoded: seq<byte>, value: int): seq<byte>
    requires IsInt64(value)
  {
    AppendUint64(encoded, Unsigned(value))
  }

  /** One sealed field. */
  datatype Field = Str(text: Text) | Rev(revision: int)

  predicate Encodable(f: Field) {
    match f
    case Str(text) => |text| < TWO_64
    case Rev(revision) => IsInt64(revision)
  }

  function Code(f: Field): seq<byte>
    requires Encodable(f)
  {
    match f
    case Str(text) => BigEndian(|text|, 8) + text
    case Rev(revision) => BigEndian(Unsigned(revision), 8)
  }

  function KeyFields(s: Sealed): seq<Field> {
    [Str(s.key.datasetId), Rev(s.key.version), Str(s.profileHash)]
  }

  function ScopeFields(b: BindingFacts): seq<Field> {
    [Str(b.workspaceId), Rev(b.workspaceRevision), Str(b.workspaceConfigurationHash), Str(b.workspaceSourceId),
     Str(b.sourceScopeId), Rev(b.sourceScopeRevision), Str(b.sourceScopeConfigurationHash)]
  }

  function RelationFields(b: BindingFacts): seq<Field> {
    [Str(b.connectionId), Rev(b.connectionRevision), Str(b.databaseIdentity), Str(b.schemaName), Str(b.relationName)]
  }

  function ExecutionFields(e: ExecutionFacts): seq<Field> {
    [Str(e.projectionLineageId), Rev(e.projectionRevision), Str(e.projectionContractHash),
     Rev(e.exposedSchemaRevision), Str(e.exposedSchemaHash)]
  }

  ghost predicate AllEncodable(fields: seq<Field>) {
    forall i :: 0 <= i < |fields| ==> Encodable(fields[i])
  }

  /** Every text is shorter than 2^64 bytes and every revision is a 64-bit integer. */
  ghost predicate Sealable(s: Sealed) {
    && AllEncodable(KeyFields(s)) && AllEncodable(ScopeFields(s.binding))
    && AllEncodable(RelationFields(s.binding)) && AllEncodable(ExecutionFields(s.execution))
  }

  function Codes(fields: seq<Field>): seq<byte>
    requires AllEncodable(fields)
  {
    if fields == [] then [] else Code(fields[0]) + Codes(fields[1..])
  }

  /** The fields in declaration order behind the domain. */
  function Preimage(s: Sealed): seq<byte>
    requires Sealable(s)
  {
    DOMAIN + (Codes(KeyFields(s)) + (Codes(ScopeFields(s.binding)) + (Codes(RelationFields(s.binding)) + Codes(ExecutionFields(s.execution)))))
  }

  function AppendField(encoded: seq<byte>, f: Field): (r: seq<byte>)
    requires Encodable(f)
    ensures r == encoded + Code(f)
  {
    match f
    case Str(text) => Concat(encoded, BigEndian(|text|, 8), text); AppendSealString(encoded, text)
    case Rev(revision) => AppendSealRevision(encoded, revision)
  }

  lemma {:induction false} CodesSnoc(fields: seq<Field>, f: Field)
    requires AllEncodable(fields) && Encodable(f)
    ensures AllEncodable(fields + [f]) && Codes(fields + [f]) == Codes(fields) + Code(f)
  {
    if fields == [] {
      assert [] + [f] == [f] && [f][1..] == [];
    } else {
      CodesSnoc(fields[1..], f);
      assert (fields + [f])[1..] == fields[1..] + [f];
      Concat(Code(fields[0]), Codes(fields[1..]), Code(f));
    }
  }

  /** One append of the next field. */
  method Next(encoded: seq<byte>, ghost start: seq<byte>, ghost fields: seq<Field>, ghost k: nat, f: Field)
    returns (more: seq<byte>, ghost next: nat)
    requires AllEncodable(fields) && k < |fields| && f == fields[k] && encoded == start + Codes(fields[..k])
    ensures more == encoded + Code(f) && next == k + 1 && more == start + Codes(fields[..next])
  {
    more, next := AppendField(encoded, f), k + 1;
    PrefixSnoc(fields, k);
    CodesSnoc(fields[..k], f);
    Concat(start, Codes(fields[..k]), Code(f));
  }

  method AppendKey(encoded: seq<byte>, s: Sealed) returns (more: seq<byte>)
    requires AllEncodable(KeyFields(s))
    ensures more == encoded + Codes(KeyFields(s))
  {
    ghost var fields, k := KeyFields(s), 0;
    more := encoded;
    more, k := Next(more, encoded, fields, k, Str(s.key.datasetId));
    more, k := Next(more, encoded, fields, k, Rev(s.key.version));
    more, k := Next(more, encoded, fields, k, Str(s.profileHash));
    WholePrefix(fields);
  }

  method AppendScope(encoded: seq<byte>, b: BindingFacts) returns (more: seq<byte>)
    requires AllEncodable(ScopeFields(b))
    ensures more == encoded + Codes(ScopeFields(b))
  {
    ghost var fields, k := ScopeFields(b), 0;
    more := encoded;
    more, k := Next(more, encoded, fields, k, Str(b.workspaceId));
    more, k := Next(more, encoded, fields, k, Rev(b.workspaceRevision));
    more, k := Next(more, encoded, fields, k, Str(b.workspaceConfigurationHash));
    more, k := Next(more, encoded, fields, k, Str(b.workspaceSourceId));
    more, k := Next(more, encoded, fields, k, Str(b.sourceScopeId));
    more, k := Next(more, encoded, fields, k, Rev(b.sourceScopeRevision));
    more, k := Next(more, encoded, fields, k, Str(b.sourceScopeConfigurationHash));
    WholePrefix(fields);
  }

  method AppendRelation(encoded: seq<byte>, b: BindingFacts) returns (more: seq<byte>)
    requires AllEncodable(RelationFields(b))
    ensures more == encoded + Codes(RelationFields(b))
  {
    ghost var fields, k := RelationFields(b), 0;
    more := encoded;
    more, k := Next(more, encoded, fields, k, Str(b.connectionId));
    more, k := Next(more, encoded, fields, k, Rev(b.connectionRevision));
    more, k := Next(more, encoded, fields, k, Str(b.databaseIdentity));
    more, k := Next(more, encoded, fields, k, Str(b.schemaName));
    more, k := Next(more, encoded, fields, k, Str(b.relationName));
    WholePrefix(fields);
  }

  method AppendExecution(encoded: seq<byte>, e: ExecutionFacts) returns (more: seq<byte>)
    requires AllEncodable(ExecutionFields(e))
    ensures more == encoded + Codes(ExecutionFields(e))
  {
    ghost var fields, k := ExecutionFields(e), 0;
    more := encoded;
    more, k := Next(more, encoded, fields, k, Str(e.projectionLineageId));
    more, k := Next(more, encoded, fields, k, Rev(e.projectionRevision));
    more, k := Next(more, encoded, fields, k, Str(e.projectionContractHash));
    more, k := Next(more, encoded, fields, k, Rev(e.exposedSchemaRevision));
    more, k := Next(more, encoded, fields, k, Str(e.exposedSchemaHash));
    WholePrefix(fields);
  }

  /** The bytes eligibilityBindingSeal hashes, as its appends build them. */
  method SealPreimage(s: Sealed) returns (encoded: seq<byte>)
    requires Sealable(s)
    ensures encoded == Preimage(s)
  {
    encoded := AppendKey(DOMAIN, s);
    encoded := AppendScope(encoded, s.binding);
    encoded := AppendRelation(encoded, s.binding);
    encoded := AppendExecution(encoded, s.execution);
    var a, b, c, d := Codes(KeyFields(s)), Codes(ScopeFields(s.binding)), Codes(RelationFields(s.binding)), Codes(ExecutionFields(s.execution));
    Concat(DOMAIN + a + b, c, d);
    Concat(DOMAIN + a, b, c + d);
    Concat(DOMAIN, a, b + (c + d));
  }

  // ----- injectivity -----

  predicate SameKind(a: Field, b: Field) {
    a.Str? == b.Str?
  }

  /** A field's code cannot be continued into another's: it determines the field and what follows. */
  lemma CodeIsPrefixFree(a: Field, b: Field, s: seq<byte>, t: seq<byte>)
    requires Encodable(a) && Encodable(b) && SameKind(a, b) && Code(a) + s == Code(b) + t
    ensures a == b && s == t
  {
    EightBytes();
    var x, y := Code(a) + s, Code(b) + t;
    if a.Rev? {
      assert x[..8] == BigEndian(Unsigned(a.revision), 8) && y[..8] == BigEndian(Unsigned(b.revision), 8);
      BigEndianIsInjective(Unsigned(a.revision), Unsigned(b.revision), 8);
      assert s == x[8..] && t == y[8..];
    } else {
      assert x[..8] == BigEndian(|a.text|, 8) && y[..8] == BigEndian(|b.text|, 8);
      BigEndianIsInjective(|a.text|, |b.text|, 8);
      assert a.text == x[8..][..|a.text|] && b.text == y[8..][..|b.text|];
      assert s == x[8 + |a.text|..] && t == y[8 + |b.text|..];
    }
  }

  ghost predicate SameKinds(a: seq<Field>, b: seq<Field>) {
    |a| == |b| && forall i :: 0 <= i < |a| ==> SameKind(a[i], b[i])
  }

  /** The codes of a list of fields determine the list and what follows. */
  lemma {:induction false} CodesArePrefixFree(a: seq<Field>, b: seq<Field>, s: seq<byte>, t: seq<byte>)
    requires AllEncodable(a) && AllEncodable(b) && SameKinds(a, b) && Codes(a) + s == Codes(b) + t
    ensures a == b && s == t
  {
    if a == [] {
      assert Codes(a) + s == s && Codes(b) + t == t;
    } else {
      Concat(Code(a[0]), Codes(a[1..]), s);
      Concat(Code(b[0]), Codes(b[1..]), t);
      CodeIsPrefixFree(a[0], b[0], Codes(a[1..]) + s, Codes(b[1..]) + t);
      CodesArePrefixFree(a[1..], b[1..], s, t);
      assert a == [a[0]] + a[1..] && b == [b[0]] + b[1..];
    }
  }

  lemma ScopeDetermines(a: BindingFacts, b: BindingFacts)
    requires ScopeFields(a) == ScopeFields(b) && RelationFields(a) == RelationFields(b)
    ensures a == b
  {
    var f, g := ScopeFields(a), ScopeFields(b);
    assert f[0] == g[0] && f[1] == g[1] && f[2] == g[2] && f[3] == g[3] && f[4] == g[4] && f[5] == g[5] && f[6] == g[6];
    var h, k := RelationFields(a), RelationFields(b);
    assert h[0] == k[0] && h[1] == k[1] && h[2] == k[2] && h[3] == k[3] && h[4] == k[4];
  }

  lemma ExecutionDetermines(a: ExecutionFacts, b: ExecutionFacts)
    requires ExecutionFields(a) == ExecutionFields(b)
    ensures a == b
  {
    var f, g := ExecutionFields(a), ExecutionFields(b);
    assert f[0] == g[0] && f[1] == g[1] && f[2] == g[2] && f[3] == g[3] && f[4] == g[4];
  }

  lemma KeyDetermines(a: Sealed, b: Sealed)
    requires KeyFields(a) == KeyFields(b)
    ensures a.key == b.key && a.profileHash == b.profileHash
  {
    var f, g := KeyFields(a), KeyFields(b);
    assert f[0] == g[0] && f[1] == g[1] && f[2] == g[2];
  }

  lemma CancelDomain(x: seq<byte>, y: seq<byte>)
    requires DOMAIN + x == DOMAIN + y
    ensures x == y
  {
    assert x == (DOMAIN + x)[|DOMAIN|..] && y == (DOMAIN + y)[|DOMAIN|..];
  }

  lemma KindsAgree(a: Sealed, b: Sealed)
    ensures SameKinds(KeyFields(a), KeyFields(b)) && SameKinds(ScopeFields(a.binding), ScopeFields(b.binding))
    ensures SameKinds(RelationFields(a.binding), RelationFields(b.binding))
    ensures SameKinds(ExecutionFields(a.execution), ExecutionFields(b.execution))
  {
  }

  function FromExecution(s: Sealed): seq<byte>
    requires Sealable(s)
  {
    Codes(ExecutionFields(s.execution))
  }

  function FromRelation(s: Sealed): seq<byte>
    requires Sealable(s)
  {
    Codes(RelationFields(s.binding)) + FromExecution(s)
  }

  function FromScope(s: Sealed): seq<byte>
    requires Sealable(s)
  {
    Codes(ScopeFields(s.binding)) + FromRelation(s)
  }

  /** The preimage determines the profile key and hash, the twelve binding and the five execution fields. */
  lemma PreimageDetermines(a: Sealed, b: Sealed)
    requires Sealable(a) && Sealable(b) && Preimage(a) == Preimage(b)
    ensures a == b
  {
    KindsAgree(a, b);
    CancelDomain(Codes(KeyFields(a)) + FromScope(a), Codes(KeyFields(b)) + FromScope(b));
    CodesArePrefixFree(KeyFields(a), KeyFields(b), FromScope(a), FromScope(b));
    CodesArePrefixFree(ScopeFields(a.binding), ScopeFields(b.binding), FromRelation(a), FromRelation(b));
    CodesArePrefixFree(RelationFields(a.binding), RelationFields(b.binding), FromExecution(a), FromExecution(b));
    assert FromExecution(a) + [] == FromExecution(b) + [];
    CodesArePrefixFree(ExecutionFields(a.execution), ExecutionFields(b.execution), [], []);
    KeyDetermines(a, b);
    ScopeDetermines(a.binding, b.binding);
    ExecutionDetermines(a.execution, b.execution);
  }

  // ----- equality -----

  /** A stored binding: its seal is the digest of the preimage. */
  datatype Binding = Binding(facts: Sealed, wellFormed: bool, seal: Text)

  ghost predicate ValidBinding(v: Binding, digest: seq<byte> -> Text) {
    v.wellFormed && Sealable(v.facts) && v.seal == digest(Preimage(v.facts))
  }

  /** equal: valid bindings with the same facts; seals are not compared. */
  ghost predicate EqualBindings(v: Binding, w: Binding, digest: seq<byte> -> Text) {
    && ValidBinding(v, digest) && ValidBinding(w, digest)
    && v.facts.binding == w.facts.binding && v.facts.execution == w.facts.execution
    && v.facts.key == w.facts.key && v.facts.profileHash == w.facts.profileHash
  }

  /** For valid bindings equality of facts and equality of seals agree, unless the digest collided on the two preimages. */
  lemma EqualIffSameSeal(v: Binding, w: Binding, digest: seq<byte> -> Text)
    requires ValidBinding(v, digest) && ValidBinding(w, digest)
    requires digest(Preimage(v.facts)) == digest(Preimage(w.facts)) ==> Preimage(v.facts) == Preimage(w.facts)
    ensures EqualBindings(v, w, digest) <==> v.seal == w.seal
  {
    if v.seal == w.seal {
      PreimageDetermines(v.facts, w.facts);
    }
    if EqualBindings(v, w, digest) {
      assert v.facts == w.facts;
    }
  }
}
