/** Identifiers and tenant scopes: UUID texts, the storage key of a scope, and the parser that
    the PostgreSQL idempotency store applies to it. */
module Tenancy {
  import opened Text

  type nibble = x: nat | x < 16

  // A UUID is its 128-bit value, which is also its order.
  const UUID_END: nat := 0x1_0000_0000_0000_0000_0000_0000_0000_0000

  type Uuid = x: nat | x < UUID_END

  const NIL: Uuid := 0

  function Zeros(n: nat): (d: seq<nibble>)
    ensures |d| == n
  {
    if n == 0 then [] else [0] + Zeros(n - 1)
  }

  // The low n hexadecimal digits of a number, the highest first.
  function LowDigits(x: nat, n: nat): (d: seq<nibble>)
    ensures |d| == n
  {
    if n == 0 then [] else LowDigits(x / 16, n - 1) + [x % 16]
  }

  function DigitsValue(d: seq<nibble>): (x: nat)
    ensures x < Pow16(|d|)
  {
    if d == [] then 0 else 16 * DigitsValue(d[..|d| - 1]) + d[|d| - 1]
  }

  function Pow16(n: nat): nat { if n == 0 then 1 else 16 * Pow16(n - 1) }

  lemma UuidEnd()
    ensures Pow16(32) == UUID_END
  {
    assert Pow16(8) == 0x1_0000_0000;
    assert Pow16(16) == 0x1_0000_0000_0000_0000;
    assert Pow16(24) == 0x1_0000_0000_0000_0000_0000_0000;
  }

  lemma {:induction false} DigitsInverse(x: nat, n: nat)
    requires x < Pow16(n)
    ensures DigitsValue(LowDigits(x, n)) == x
  {
    if n > 0 {
      var d := LowDigits(x, n);
      assert d[..|d| - 1] == LowDigits(x / 16, n - 1) && d[|d| - 1] == x % 16;
      assert Pow16(n) == 16 * Pow16(n - 1);
      assert DigitsValue(d) == 16 * DigitsValue(d[..|d| - 1]) + d[|d| - 1];
      hide LowDigits, DigitsValue, Pow16;
      assert x / 16 < Pow16(n - 1);
      DigitsInverse(x / 16, n - 1);
    }
  }

  function UuidDigits(u: Uuid): (d: seq<nibble>)
    ensures |d| == 32
  {
    LowDigits(u, 32)
  }

  function UuidOf(d: seq<nibble>): Uuid
    requires |d| == 32
  {
    UuidEnd();
    DigitsValue(d)
  }

  function Hex(d: seq<nibble>): (s: string)
    ensures |s| == |d| && forall i :: 0 <= i < |d| ==> s[i] == HexDigit(d[i])
  {
    seq(|d|, i requires 0 <= i < |d| => HexDigit(d[i]))
  }

  /** `Uuid::to_string`: lower-case, hyphenated. */
  function ShowUuid(u: Uuid): (s: string)
    ensures |s| == 36
  {
    var d := UuidDigits(u);
    Hex(d[..8]) + "-" + Hex(d[8..12]) + "-" + Hex(d[12..16]) + "-" + Hex(d[16..20]) + "-" + Hex(d[20..])
  }

  predicate AllHex(s: string) { forall i :: 0 <= i < |s| ==> HexValue(s[i]).Some? }

  function Unhex(s: string): (d: seq<nibble>)
    requires AllHex(s)
    ensures |d| == |s| && forall i :: 0 <= i < |s| ==> HexValue(s[i]) == Some(d[i])
  {
    seq(|s|, i requires 0 <= i < |s| => HexValue(s[i]).value)
  }

  function WithoutHyphens(s: string): (t: string)
    requires |s| == 36
    ensures |t| == 32
  {
    s[..8] + s[9..13] + s[14..18] + s[19..23] + s[24..]
  }

  /** `str::parse::<Uuid>`: hyphenated, bare or braced digits of either case. The URN form holds
      colons, so no part of a colon-separated text has it. */
  function ParseUuid(s: string): Option<Uuid> {
    if |s| == 32 then (if AllHex(s) then Some(UuidOf(Unhex(s))) else None)
    else if |s| == 36 then
      if s[8] == '-' && s[13] == '-' && s[18] == '-' && s[23] == '-' && AllHex(WithoutHyphens(s))
      then Some(UuidOf(Unhex(WithoutHyphens(s))))
      else None
    else if |s| == 38 && s[0] == '{' && s[37] == '}' then
      var t := s[1..37];
      if t[8] == '-' && t[13] == '-' && t[18] == '-' && t[23] == '-' && AllHex(WithoutHyphens(t))
      then Some(UuidOf(Unhex(WithoutHyphens(t))))
      else None
    else None
  }

  lemma ShownDigits(u: Uuid)
    ensures var s, d := ShowUuid(u), UuidDigits(u);
            && s[8] == '-' && s[13] == '-' && s[18] == '-' && s[23] == '-'
            && s[..8] == Hex(d[..8]) && s[9..13] == Hex(d[8..12]) && s[14..18] == Hex(d[12..16])
            && s[19..23] == Hex(d[16..20]) && s[24..] == Hex(d[20..])
  {
    hide Hex, UuidDigits;
  }

  lemma HexConcat(a: seq<nibble>, b: seq<nibble>)
    ensures Hex(a + b) == Hex(a) + Hex(b)
  {
    hide HexDigit;
  }

  lemma ShownWithoutHyphens(u: Uuid)
    ensures WithoutHyphens(ShowUuid(u)) == Hex(UuidDigits(u))
  {
    ShownDigits(u);
    hide ShowUuid, Hex, UuidDigits;
    var d := UuidDigits(u);
    HexConcat(d[..8], d[8..12]);
    HexConcat(d[..8] + d[8..12], d[12..16]);
    HexConcat(d[..8] + d[8..12] + d[12..16], d[16..20]);
    HexConcat(d[..8] + d[8..12] + d[12..16] + d[16..20], d[20..]);
    assert d == d[..8] + d[8..12] + d[12..16] + d[16..20] + d[20..];
  }

  lemma UuidInverse(u: Uuid)
    ensures UuidOf(UuidDigits(u)) == u
  {
    UuidEnd();
    DigitsInverse(u, 32);
    hide LowDigits, DigitsValue, Pow16;
  }

  /** A shown UUID parses back to itself. */
  lemma ParseShownUuid(u: Uuid)
    ensures ParseUuid(ShowUuid(u)) == Some(u)
  {
    ShownDigits(u);
    ShownWithoutHyphens(u);
    HexUnhex(UuidDigits(u));
    UuidInverse(u);
    hide ShowUuid, WithoutHyphens, Hex, Unhex, AllHex, UuidDigits, UuidOf;
  }

  lemma HexUnhex(d: seq<nibble>)
    ensures AllHex(Hex(d)) && Unhex(Hex(d)) == d
  {
  }

  function Hyphenated(h: string): string
    requires |h| == 32
  {
    h[..8] + "-" + h[8..12] + "-" + h[12..16] + "-" + h[16..20] + "-" + h[20..]
  }

  // Thirty-two hexadecimal digits of either case with this value: bare, hyphenated, or braced.
  ghost predicate IsUuidText(s: string, u: Uuid) {
    exists h: string ::
      && |h| == 32 && AllHex(h) && UuidOf(Unhex(h)) == u
      && (s == h || s == Hyphenated(h) || s == "{" + Hyphenated(h) + "}")
  }

  lemma HyphenatedParts(h: string)
    requires |h| == 32
    ensures var t := Hyphenated(h);
            |t| == 36 && t[8] == '-' && t[13] == '-' && t[18] == '-' && t[23] == '-' && WithoutHyphens(t) == h
  {
    var t := Hyphenated(h);
    assert t[..8] == h[..8] && t[9..13] == h[8..12] && t[14..18] == h[12..16] && t[19..23] == h[16..20] && t[24..] == h[20..];
  }

  lemma WithoutThenHyphenated(t: string)
    requires |t| == 36 && t[8] == '-' && t[13] == '-' && t[18] == '-' && t[23] == '-'
    ensures Hyphenated(WithoutHyphens(t)) == t
  {
    var h := WithoutHyphens(t);
    assert h[..8] == t[..8] && h[8..12] == t[9..13] && h[12..16] == t[14..18] && h[16..20] == t[19..23] && h[20..] == t[24..];
  }

  /** A text parses to a UUID exactly when it is one of that UUID's texts. */
  lemma ParseUuidExactly(s: string, u: Uuid)
    ensures ParseUuid(s) == Some(u) <==> IsUuidText(s, u)
  {
    hide UuidOf, Unhex, AllHex, Hyphenated, WithoutHyphens;
    if h: string :| |h| == 32 && AllHex(h) && UuidOf(Unhex(h)) == u
                    && (s == h || s == Hyphenated(h) || s == "{" + Hyphenated(h) + "}") {
      HyphenatedParts(h);
      assert ("{" + Hyphenated(h) + "}")[1..37] == Hyphenated(h);
    }
    if ParseUuid(s) == Some(u) {
      var t := if |s| == 38 then s[1..37] else s;
      if |s| == 32 {
        assert s == s && UuidOf(Unhex(s)) == u;
      } else {
        WithoutThenHyphenated(t);
        var h := WithoutHyphens(t);
        assert UuidOf(Unhex(h)) == u && |s| == 38 ==> s == "{" + t + "}";
        assert s == Hyphenated(h) || s == "{" + Hyphenated(h) + "}";
      }
    }
  }

  lemma HexHasNoColon(h: string)
    requires AllHex(h)
    ensures ':' !in h
  {
    forall i | 0 <= i < |h| ensures h[i] != ':' {
      assert HexValue(h[i]).Some?;
    }
  }

  lemma UuidTextHasNoColon(s: string, u: Uuid)
    requires IsUuidText(s, u)
    ensures ':' !in s
  {
    var h: string :| |h| == 32 && AllHex(h) && UuidOf(Unhex(h)) == u
                     && (s == h || s == Hyphenated(h) || s == "{" + Hyphenated(h) + "}");
    HexHasNoColon(h);
    hide UuidOf, Unhex, AllHex;
  }

  lemma ShownHasNoColon(u: Uuid)
    ensures ':' !in ShowUuid(u)
  {
    ShownDigits(u);
    hide ShowUuid;
    var s := ShowUuid(u);
    forall i | 0 <= i < 36 ensures s[i] != ':' {
      if i < 8 { assert s[i] == s[..8][i]; }
      else if 8 < i < 13 { assert s[i] == s[9..13][i - 9]; }
      else if 13 < i < 18 { assert s[i] == s[14..18][i - 14]; }
      else if 18 < i < 23 { assert s[i] == s[19..23][i - 19]; }
      else if 23 < i { assert s[i] == s[24..][i - 24]; }
    }
  }

  datatype TenantScope = TenantScope(operatorId: Uuid, tenantId: Uuid, projectId: Option<Uuid>)

  function StorageKey(scope: TenantScope): string {
    var tenant := ShowUuid(scope.operatorId) + ":" + ShowUuid(scope.tenantId);
    match scope.projectId
    case Some(project) => tenant + ":" + ShowUuid(project)
    case None => tenant
  }

  function ParseScope(text: string): Option<TenantScope> {
    var parts := Split(text, ':');
    if !(2 <= |parts| <= 3) then None
    else
      match (ParseUuid(parts[0]), ParseUuid(parts[1]))
      case (Some(operator), Some(tenant)) =>
        if |parts| == 2 then Some(TenantScope(operator, tenant, None))
        else
          (match ParseUuid(parts[2])
           case Some(project) => Some(TenantScope(operator, tenant, Some(project)))
           case None => None)
      case _ => None
  }

  /** `parse_scope` inverts `storage_key` on every scope. */
  lemma ParseStorageKey(scope: TenantScope)
    ensures ParseScope(StorageKey(scope)) == Some(scope)
  {
    hide ShowUuid, ParseUuid, Split;
    var operator, tenant := ShowUuid(scope.operatorId), ShowUuid(scope.tenantId);
    ParseShownUuid(scope.operatorId);
    ParseShownUuid(scope.tenantId);
    ShownHasNoColon(scope.operatorId);
    ShownHasNoColon(scope.tenantId);
    match scope.projectId
    case None =>
      SplitAtFirst(operator, ':', tenant);
      SplitNowhere(tenant, ':');
    case Some(project) =>
      ParseShownUuid(project);
      ShownHasNoColon(project);
      var rest := tenant + [':'] + ShowUuid(project);
      assert StorageKey(scope) == operator + [':'] + rest;
      SplitAtFirst(operator, ':', rest);
      SplitAtFirst(tenant, ':', ShowUuid(project));
      SplitNowhere(ShowUuid(project), ':');
  }

  lemma StorageKeyInjective(a: TenantScope, b: TenantScope)
    requires StorageKey(a) == StorageKey(b)
    ensures a == b
  {
    hide StorageKey, ParseScope;
    ParseStorageKey(a);
    ParseStorageKey(b);
  }
}
