/** The fingerprint of a model grant: a length-prefixed preimage of its fields, hashed into a
    textual reference that names the route. */
module Grant {
  import opened Text
  import opened Utf8
  import opened Tenancy

  const ROUTE_PREFIX := "tenant-model-route"

  const MAX_REFERENCE_BYTES: nat := 256

  type i64 = x: int | -0x8000_0000_0000_0000 <= x < 0x8000_0000_0000_0000

  datatype ModelRouteGrant = ModelRouteGrant(
    routeId: Uuid, scope: TenantScope, model: string, isDefault: bool, enabled: bool,
    tenantExternalId: string, principalExternalId: string, keyId: Uuid, credentialGeneration: i64)

  // SHA-256 is a parameter: nothing but its output size is known of it here.
  type Digest = d: seq<nibble> | |d| == 64 witness Zeros(64)

  type Sha256 = seq<byte> -> Digest

  function Bool(b: bool): string { if b then "true" else "false" }

  function Integer(n: int): string { if n < 0 then "-" + Decimal(-n) else Decimal(n) }

  function Fields(g: ModelRouteGrant): seq<string> {
    [ShowUuid(g.scope.operatorId),
     ShowUuid(g.scope.tenantId),
     match g.scope.projectId case None => "" case Some(project) => ShowUuid(project),
     g.model,
     Bool(g.isDefault),
     Bool(g.enabled),
     g.tenantExternalId,
     g.principalExternalId,
     ShowUuid(g.keyId),
     Integer(g.credentialGeneration)]
  }

  /** `to_be_bytes` on the low `size` bytes. */
  function BigEndian(n: nat, size: nat): (b: seq<byte>)
    ensures |b| == size
  {
    if size == 0 then [] else BigEndian(n / 256, size - 1) + [n % 256]
  }

  function Prefixed(field: string): seq<byte> { BigEndian(Utf8Len(field), 8) + Encode(field) }

  /** What the hasher is fed. */
  function Preimage(fields: seq<string>): seq<byte> {
    if fields == [] then [] else Prefixed(fields[0]) + Preimage(fields[1..])
  }

  // No Rust string is longer: lengths fit a u64.
  predicate Fit(fields: seq<string>) { forall i :: 0 <= i < |fields| ==> Utf8Len(fields[i]) < U64_END }


  /** `reference`: the route and the fingerprint of everything else. */
  method Reference(grant: ModelRouteGrant, sha256: Sha256) returns (r: Result<string, ()>)
    ensures r == Ok(ReferenceText(grant, sha256))
  {
    var fields := Fields(grant);
    PreimageEnds(fields);
    hide Fields, Preimage, Prefixed, ShowUuid, Hex, SecretRef;
    var fed: seq<byte> := [];
    var i := 0;
    while i < |fields|
      invariant 0 <= i <= |fields|
      invariant fed + Preimage(fields[i..]) == Preimage(fields)
    {
      PreimageFrom(fields, i);
      Assoc(fed, Prefixed(fields[i]), Preimage(fields[i + 1..]));
      fed := fed + Prefixed(fields[i]);
      i := i + 1;
    }
    assert fed + [] == fed;
    ReferenceFits(grant, sha256);
    r := SecretRef(ROUTE_PREFIX + ":" + ShowUuid(grant.routeId) + ":" + Hex(sha256(fed)));
  }

  lemma PreimageFrom(fields: seq<string>, i: nat)
    requires i < |fields|
    ensures Preimage(fields[i..]) == Prefixed(fields[i]) + Preimage(fields[i + 1..])
  {
    hide Prefixed;
    assert fields[i..][1..] == fields[i + 1..];
  }

  lemma PreimageEnds(fields: seq<string>)
    ensures Preimage(fields[|fields|..]) == []
    ensures fields[0..] == fields && [] + Preimage(fields) == Preimage(fields)
  {
  }

  function ReferenceText(grant: ModelRouteGrant, sha256: Sha256): string {
    ROUTE_PREFIX + ":" + ShowUuid(grant.routeId) + ":" + Hex(sha256(Preimage(Fields(grant))))
  }

  /** `SecretRef::new`. */
  function SecretRef(text: string): Result<string, ()> {
    if Trim(text) == "" || Utf8Len(text) > MAX_REFERENCE_BYTES then Err(()) else Ok(text)
  }

  /** `route_id`. */
  function RouteId(text: string): Option<Uuid> {
    match SplitOnce(text, ':')
    case None => None
    case Some((prefix, rest)) =>
      match SplitOnce(rest, ':')
      case None => None
      case Some((id, fingerprint)) =>
        if prefix != ROUTE_PREFIX || Utf8Len(fingerprint) != 64 || !AllHex(fingerprint) then None
        else ParseUuid(id)
  }

  // ---- The preimage determines the fields ----

  lemma {:induction false} BigEndianInjective(m: nat, n: nat, size: nat, end: nat)
    requires BigEndian(m, size) == BigEndian(n, size)
    requires end == Pow256(size) && m < end && n < end
    ensures m == n
  {
    if size > 0 {
      var a, b := BigEndian(m / 256, size - 1), BigEndian(n / 256, size - 1);
      assert BigEndian(m, size)[..size - 1] == a && BigEndian(n, size)[..size - 1] == b;
      assert BigEndian(m, size)[size - 1] == m % 256 && BigEndian(n, size)[size - 1] == n % 256;
      BigEndianInjective(m / 256, n / 256, size - 1, Pow256(size - 1));
    }
  }

  function Pow256(size: nat): nat { if size == 0 then 1 else 256 * Pow256(size - 1) }

  function BigEndianValue(b: seq<byte>): nat {
    if b == [] then 0 else 256 * BigEndianValue(b[..|b| - 1]) + b[|b| - 1]
  }

  /** The length prefix reads as the length, its first byte the most significant. */
  lemma {:induction false} BigEndianReads(n: nat, size: nat)
    requires n < Pow256(size)
    ensures BigEndianValue(BigEndian(n, size)) == n
  {
    if size > 0 {
      var b := BigEndian(n, size);
      assert b[..size - 1] == BigEndian(n / 256, size - 1) && b[size - 1] == n % 256;
      assert Pow256(size) == 256 * Pow256(size - 1);
      BigEndianReads(n / 256, size - 1);
    }
  }

  lemma PrefixedInjective(a: string, x: seq<byte>, b: string, y: seq<byte>)
    requires Utf8Len(a) < U64_END && Utf8Len(b) < U64_END
    requires Prefixed(a) + x == Prefixed(b) + y
    ensures a == b && x == y
  {
    hide Encode, BigEndian;
    var m, n := Utf8Len(a), Utf8Len(b);
    var whole := Prefixed(a) + x;
    assert whole[..8] == BigEndian(m, 8) && whole[..8] == BigEndian(n, 8);
    assert U64_END == Pow256(8);
    BigEndianInjective(m, n, 8, U64_END);
    assert whole[8..8 + m] == Encode(a) && whole[8..8 + n] == Encode(b);
    assert whole[8 + m..] == x && whole[8 + n..] == y;
    EncodeInjective(a, b);
  }

  /** For all strings: fields of the same number with the same preimage are the same. */
  lemma {:induction false} PreimageInjective(f: seq<string>, g: seq<string>)
    requires |f| == |g| && Fit(f) && Fit(g)
    requires Preimage(f) == Preimage(g)
    ensures f == g
  {
    if f != [] {
      hide Prefixed;
      PrefixedInjective(f[0], Preimage(f[1..]), g[0], Preimage(g[1..]));
      PreimageInjective(f[1..], g[1..]);
      assert f == [f[0]] + f[1..] && g == [g[0]] + g[1..];
    }
  }

  // The text is the numeral of this value, with a minus sign for a negative one.
  predicate IsNumeralOf(text: string, n: int) {
    && text != ""
    && var digits := if text[0] == '-' then text[1..] else text;
       AllDigits(digits) && n == if text[0] == '-' then -(DecimalValue(digits) as int) else DecimalValue(digits)
  }

  /** Which texts are hashed, and in which order. */
  lemma FieldsInOrder(g: ModelRouteGrant)
    ensures var f := Fields(g);
            && |f| == 10
            && IsUuidText(f[0], g.scope.operatorId) && IsUuidText(f[1], g.scope.tenantId)
            && (match g.scope.projectId case Some(project) => IsUuidText(f[2], project) case None => f[2] == "")
            && f[3] == g.model
            && (f[4] == "true" <==> g.isDefault) && (f[4] == "false" <==> !g.isDefault)
            && (f[5] == "true" <==> g.enabled) && (f[5] == "false" <==> !g.enabled)
            && f[6] == g.tenantExternalId && f[7] == g.principalExternalId
            && IsUuidText(f[8], g.keyId)
            && IsNumeralOf(f[9], g.credentialGeneration)
  {
    hide ShowUuid, IsUuidText, Integer, IsNumeralOf, Bool;
    BoolText(g.isDefault);
    BoolText(g.enabled);
    NumeralOf(g.credentialGeneration);
    ShownIsUuidText(g.scope.operatorId);
    ShownIsUuidText(g.scope.tenantId);
    ShownIsUuidText(g.keyId);
    if g.scope.projectId.Some? { ShownIsUuidText(g.scope.projectId.value); }
  }

  lemma BoolText(b: bool)
    ensures (Bool(b) == "true" <==> b) && (Bool(b) == "false" <==> !b)
  {
    assert |Bool(b)| == if b then 4 else 5;
  }

  lemma ShownIsUuidText(u: Uuid)
    ensures IsUuidText(ShowUuid(u), u)
  {
    hide ShowUuid, ParseUuid, IsUuidText;
    ParseShownUuid(u);
    ParseUuidExactly(ShowUuid(u), u);
  }

  lemma NumeralOf(n: int)
    ensures IsNumeralOf(Integer(n), n)
  {
    var m := if n < 0 then -n else n;
    DecimalRoundTrip(m);
    hide Decimal, DecimalValue;
    assert n < 0 ==> Integer(n)[1..] == Decimal(m);
  }

  lemma IntegerInjective(m: int, n: int)
    requires Integer(m) == Integer(n)
    ensures m == n
  {
    assert Integer(m)[0] == '-' <==> m < 0;
    assert Integer(n)[0] == '-' <==> n < 0;
    if (m < 0) == (n < 0) {
      var a, b := if m < 0 then -m else m, if n < 0 then -n else n;
      assert m < 0 ==> Integer(m)[1..] == Decimal(a) && Integer(n)[1..] == Decimal(b);
      DecimalInjective(a, b);
    }
  }

  lemma ShowUuidInjective(u: Uuid, v: Uuid)
    requires ShowUuid(u) == ShowUuid(v)
    ensures u == v
  {
    hide ShowUuid, ParseUuid;
    ParseShownUuid(u);
    ParseShownUuid(v);
  }

  lemma FieldsInjective(g: ModelRouteGrant, h: ModelRouteGrant)
    requires Fields(g) == Fields(h)
    ensures g == h.(routeId := g.routeId)
  {
    hide ShowUuid, Integer;
    var f, k := Fields(g), Fields(h);
    assert f[0] == k[0] && f[1] == k[1] && f[2] == k[2] && f[3] == k[3] && f[4] == k[4]
        && f[5] == k[5] && f[6] == k[6] && f[7] == k[7] && f[8] == k[8] && f[9] == k[9];
    hide Fields;
    ShowUuidInjective(g.scope.operatorId, h.scope.operatorId);
    ShowUuidInjective(g.scope.tenantId, h.scope.tenantId);
    if g.scope.projectId.Some? && h.scope.projectId.Some? {
      ShowUuidInjective(g.scope.projectId.value, h.scope.projectId.value);
    }
    assert |f[2]| == if g.scope.projectId.Some? then 36 else 0;
    BoolInjective(g.isDefault, h.isDefault);
    BoolInjective(g.enabled, h.enabled);
    ShowUuidInjective(g.keyId, h.keyId);
    IntegerInjective(g.credentialGeneration, h.credentialGeneration);
  }

  lemma BoolInjective(a: bool, b: bool)
    requires Bool(a) == Bool(b)
    ensures a == b
  {
    assert |Bool(a)| == if a then 4 else 5;
    assert |Bool(b)| == if b then 4 else 5;
  }

  /** Any change of any field of a grant changes what is hashed. */
  lemma PreimageDeterminesGrant(g: ModelRouteGrant, h: ModelRouteGrant)
    requires Fit(Fields(g)) && Fit(Fields(h))
    requires Preimage(Fields(g)) == Preimage(Fields(h))
    ensures g == h.(routeId := g.routeId)
  {
    hide Preimage;
    PreimageInjective(Fields(g), Fields(h));
    FieldsInjective(g, h);
  }

  // ---- The reference ----

  lemma HexIsHex(d: seq<nibble>)
    ensures AllHex(Hex(d)) && Utf8Len(Hex(d)) == |d|
    ensures ':' !in Hex(d)
  {
    var s := Hex(d);
    forall i | 0 <= i < |s| ensures HexValue(s[i]).Some? && s[i] as int < 0x80 && s[i] != ':' {
      assert s[i] == HexDigit(d[i]);
    }
    AsciiLen(s);
  }

  /** `route_id` reads the grant's own route back from its reference. */
  lemma RouteIdOfReference(grant: ModelRouteGrant, sha256: Sha256)
    ensures RouteId(ReferenceText(grant, sha256)) == Some(grant.routeId)
  {
    var id, hash := ShowUuid(grant.routeId), sha256(Preimage(Fields(grant)));
    ShownHasNoColon(grant.routeId);
    ParseShownUuid(grant.routeId);
    HexIsHex(hash);
    hide ShowUuid, ParseUuid, Hex, AllHex, SplitOnce, Split, Utf8Len, Preimage, Fields;
    var rest := id + [':'] + Hex(hash);
    assert ReferenceText(grant, sha256) == ROUTE_PREFIX + [':'] + rest;
    SplitAtFirst(ROUTE_PREFIX, ':', rest);
    SplitAtFirst(id, ':', Hex(hash));
  }

  predicate IsHexDigit(c: char) { '0' <= c <= '9' || 'a' <= c <= 'f' || 'A' <= c <= 'F' }

  // A reference for this route: the literal prefix, the UUID's text and 64 hexadecimal digits.
  ghost predicate IsReferenceTo(text: string, route: Uuid) {
    exists id: string, fingerprint: string :: IsReferenceParts(text, id, fingerprint) && IsUuidText(id, route)
  }

  predicate IsReferenceParts(text: string, id: string, fingerprint: string) {
    && text == "tenant-model-route" + [':'] + (id + [':'] + fingerprint)
    && |fingerprint| == 64 && forall i :: 0 <= i < 64 ==> IsHexDigit(fingerprint[i])
  }

  /** A route is read exactly from a reference to it: nothing else is a reference. */
  lemma RouteIdExactly(text: string, route: Uuid)
    ensures RouteId(text) == Some(route) <==> IsReferenceTo(text, route)
  {
    hide ParseUuid, IsUuidText, Split, SplitOnce, Encode;
    if id: string, fingerprint: string :| IsReferenceParts(text, id, fingerprint) && IsUuidText(id, route) {
      ParseUuidExactly(id, route);
      UuidTextHasNoColon(id, route);
      AsciiLen(fingerprint);
      SplitAtFirst("tenant-model-route", ':', id + [':'] + fingerprint);
      SplitAtFirst(id, ':', fingerprint);
    }
    if RouteId(text) == Some(route) {
      var (prefix, rest) := SplitOnce(text, ':').value;
      var (id, fingerprint) := SplitOnce(rest, ':').value;
      SplitOnceParts(text, ':');
      SplitOnceParts(rest, ':');
      AllHexIsAscii(fingerprint);
      ParseUuidExactly(id, route);
      assert IsReferenceParts(text, id, fingerprint);
    }
  }

  lemma AllHexIsAscii(s: string)
    requires AllHex(s)
    ensures Utf8Len(s) == |s| && forall i :: 0 <= i < |s| ==> IsHexDigit(s[i])
  {
    forall i | 0 <= i < |s| ensures IsHexDigit(s[i]) && s[i] as int < 0x80 {
      assert HexValue(s[i]).Some?;
    }
    AsciiLen(s);
  }

  /** A secret reference is any text that is not blank and has at most 256 bytes. */
  lemma SecretRefExactly(text: string)
    ensures SecretRef(text) == if !Blank(text) && Utf8Len(text) <= 256 then Ok(text) else Err(())
  {
    TrimIsEmpty(text);
    hide Trim, Blank, Encode;
  }

  lemma ShownIsAscii(u: Uuid)
    ensures forall i :: 0 <= i < 36 ==> ShowUuid(u)[i] as int < 0x80
  {
    ShownDigits(u);
    hide ShowUuid;
    var s := ShowUuid(u);
    forall i | 0 <= i < 36 ensures s[i] as int < 0x80 {
      if i < 8 { assert s[i] == s[..8][i]; }
      else if 8 < i < 13 { assert s[i] == s[9..13][i - 9]; }
      else if 13 < i < 18 { assert s[i] == s[14..18][i - 14]; }
      else if 18 < i < 23 { assert s[i] == s[19..23][i - 19]; }
      else if 23 < i { assert s[i] == s[24..][i - 24]; }
    }
  }

  /** Every reference is 120 bytes and not blank, so it always makes a secret reference. */
  lemma ReferenceFits(grant: ModelRouteGrant, sha256: Sha256)
    ensures Utf8Len(ReferenceText(grant, sha256)) == 120
    ensures SecretRef(ReferenceText(grant, sha256)) == Ok(ReferenceText(grant, sha256))
  {
    var text, id, hash := ReferenceText(grant, sha256), ShowUuid(grant.routeId), sha256(Preimage(Fields(grant)));
    ShownIsAscii(grant.routeId);
    AsciiLen(id);
    HexIsHex(hash);
    AsciiLen(ROUTE_PREFIX + ":");
    AsciiLen(":");
    hide Preimage, Fields, ShowUuid, Hex, Encode, Trim, Blank;
    var head := ROUTE_PREFIX + ":";
    Utf8LenConcat(head, id);
    Utf8LenConcat(head + id, ":");
    Utf8LenConcat(head + id + ":", Hex(hash));
    hide Utf8Len;
    assert text == head + id + ":" + Hex(hash);
    TrimIsEmpty(text);
    NotBlank(text);
  }

  lemma NotBlank(text: string)
    requires text != "" && text[0] == 't'
    ensures !Blank(text)
  {
  }

  /** Where the hash does not collide, a reference stands for one grant, route and all. */
  lemma ReferenceDeterminesGrant(g: ModelRouteGrant, h: ModelRouteGrant, sha256: Sha256)
    requires Fit(Fields(g)) && Fit(Fields(h))
    requires ReferenceText(g, sha256) == ReferenceText(h, sha256)
    requires sha256(Preimage(Fields(g))) == sha256(Preimage(Fields(h))) ==> Preimage(Fields(g)) == Preimage(Fields(h))
    ensures g == h
  {
    hide Preimage, Fields, ShowUuid, Hex, HexDigit;
    RouteIdOfReference(g, sha256);
    RouteIdOfReference(h, sha256);
    var a, b := Hex(sha256(Preimage(Fields(g)))), Hex(sha256(Preimage(Fields(h))));
    var t := ReferenceText(g, sha256);
    assert t[|t| - 64..] == a && t[|t| - 64..] == b;
    hide RouteId, ReferenceText;
    HexInjective(sha256(Preimage(Fields(g))), sha256(Preimage(Fields(h))));
    PreimageDeterminesGrant(g, h);
  }

  lemma HexInjective(c: Digest, d: Digest)
    requires Hex(c) == Hex(d)
    ensures c == d
  {
    hide HexDigit;
    forall i | 0 <= i < 64 ensures c[i] == d[i] {
      assert HexValue(Hex(c)[i]) == Some(c[i]) && HexValue(Hex(d)[i]) == Some(d[i]);
    }
  }
}
