/** Redaction of secret-like tokens in diagnostics: split on white space, replace, rejoin. */
module Redaction {
  import opened Text
  import opened Utf8

  function WordLength(s: string): (n: nat)
    ensures n <= |s| && forall i :: 0 <= i < n ==> !IsWhitespace(s[i])
    ensures n < |s| ==> IsWhitespace(s[n])
  {
    if s != "" && !IsWhitespace(s[0]) then 1 + WordLength(s[1..]) else 0
  }

  /** `str::split_whitespace`. */
  function Tokens(s: string): seq<string>
    decreases |s|
  {
    if s == "" then []
    else if IsWhitespace(s[0]) then Tokens(s[1..])
    else [s[..WordLength(s)]] + Tokens(s[WordLength(s)..])
  }

  function Join(tokens: seq<string>): string {
    if tokens == [] then ""
    else if |tokens| == 1 then tokens[0]
    else tokens[0] + " " + Join(tokens[1..])
  }

  predicate IsQuoting(c: char) { c == '"' || c == '\'' || c == ',' || c == ';' || c == '=' || c == ':' }

  function StripStart(s: string): string {
    if s != "" && IsQuoting(s[0]) then StripStart(s[1..]) else s
  }

  function StripEnd(s: string): string {
    if s != "" && IsQuoting(s[|s| - 1]) then StripEnd(s[..|s| - 1]) else s
  }

  predicate IsSecretChar(c: char) {
    IsAsciiAlpha(c) || IsDigit(c) || c == '-' || c == '_' || c == '+' || c == '.'
  }

  predicate IsSecret(token: string) {
    var trimmed := StripEnd(StripStart(token));
    && Utf8Len(trimmed) >= 24
    && '/' !in trimmed
    && forall i :: 0 <= i < |trimmed| ==> IsSecretChar(trimmed[i])
  }

  function RedactToken(token: string): string { if IsSecret(token) then "***" else token }

  function RedactTokens(tokens: seq<string>): (r: seq<string>)
    ensures |r| == |tokens| && forall i :: 0 <= i < |r| ==> r[i] == RedactToken(tokens[i])
  {
    seq(|tokens|, i requires 0 <= i < |tokens| => RedactToken(tokens[i]))
  }

  function RedactSecrets(message: string): string { Join(RedactTokens(Tokens(message))) }

  predicate IsWord(t: string) { t != "" && forall i :: 0 <= i < |t| ==> !IsWhitespace(t[i]) }

  predicate AreWords(ts: seq<string>) { forall i :: 0 <= i < |ts| ==> IsWord(ts[i]) }

  lemma {:induction false} TokensAreWords(s: string)
    ensures AreWords(Tokens(s))
    decreases |s|
  {
    if s != "" {
      if IsWhitespace(s[0]) {
        TokensAreWords(s[1..]);
      } else {
        TokensAreWords(s[WordLength(s)..]);
      }
    }
  }

  lemma {:induction false} WordLengthStops(t: string, rest: string)
    requires IsWord(t) && (rest == "" || IsWhitespace(rest[0]))
    ensures WordLength(t + rest) == |t|
  {
    var s := t + rest;
    assert forall i :: 0 <= i < |t| ==> s[i] == t[i];
    if rest != "" { assert s[|t|] == rest[0]; }
  }

  lemma FirstToken(t: string, rest: string)
    requires IsWord(t) && (rest == "" || IsWhitespace(rest[0]))
    ensures Tokens(t + rest) == [t] + Tokens(rest)
  {
    WordLengthStops(t, rest);
    var s := t + rest;
    assert s[0] == t[0];
    assert s[..|t|] == t && s[|t|..] == rest;
  }

  /** Splitting undoes joining on words. */
  lemma {:induction false} TokensJoin(ts: seq<string>)
    requires AreWords(ts)
    ensures Tokens(Join(ts)) == ts
  {
    if |ts| == 1 {
      assert ts[0] + "" == ts[0] && ts == [ts[0]];
      FirstToken(ts[0], "");
    } else if ts != [] {
      var more := " " + Join(ts[1..]);
      TokensJoin(ts[1..]);
      assert Join(ts) == ts[0] + more;
      FirstToken(ts[0], more);
      assert more[0] == ' ' && more[1..] == Join(ts[1..]);
      assert ts == [ts[0]] + ts[1..];
    }
  }

  lemma StarsAreNoSecret()
    ensures IsWord("***") && !IsSecret("***")
  {
    AsciiLen("***");
    assert StripEnd(StripStart("***")) == "***";
  }

  // ----- Which tokens are secrets -----

  predicate Quotes(s: string) {
    forall i :: 0 <= i < |s| ==>
      s[i] == '"' || s[i] == '\'' || s[i] == ',' || s[i] == ';' || s[i] == '=' || s[i] == ':'
  }

  // At least 24 ASCII letters, digits and characters of -_+. only.
  predicate IsKeyLike(s: string) {
    && |s| >= 24
    && forall i :: 0 <= i < |s| ==>
         'a' <= s[i] <= 'z' || 'A' <= s[i] <= 'Z' || '0' <= s[i] <= '9'
         || s[i] == '-' || s[i] == '_' || s[i] == '+' || s[i] == '.'
  }

  // A key-like text between quoting characters.
  ghost predicate QuotesKey(token: string) {
    exists a: string, s: string, b: string :: token == a + s + b && Quotes(a) && IsKeyLike(s) && Quotes(b)
  }

  lemma {:induction false} StripStartOf(a: string, t: string)
    requires Quotes(a) && (t == "" || !IsQuoting(t[0]))
    ensures StripStart(a + t) == t
  {
    if a == "" {
      assert a + t == t;
    } else {
      assert (a + t)[1..] == a[1..] + t;
      StripStartOf(a[1..], t);
    }
  }

  lemma {:induction false} StripEndOf(t: string, b: string)
    requires Quotes(b) && (t == "" || !IsQuoting(t[|t| - 1]))
    ensures StripEnd(t + b) == t
  {
    if b == "" {
      assert t + b == t;
    } else {
      assert (t + b)[..|t + b| - 1] == t + b[..|b| - 1];
      StripEndOf(t, b[..|b| - 1]);
    }
  }

  lemma {:induction false} StripStartParts(s: string) returns (a: string)
    ensures s == a + StripStart(s) && Quotes(a)
  {
    if s != "" && IsQuoting(s[0]) {
      var rest := StripStartParts(s[1..]);
      a := [s[0]] + rest;
      HeadTail(s);
      Assoc([s[0]], rest, StripStart(s));
    } else {
      a := "";
    }
  }

  lemma {:induction false} StripEndParts(s: string) returns (b: string)
    ensures s == StripEnd(s) + b && Quotes(b)
  {
    if s != "" && IsQuoting(s[|s| - 1]) {
      var rest := StripEndParts(s[..|s| - 1]);
      b := rest + [s[|s| - 1]];
      InitLast(s);
      Assoc(StripEnd(s), rest, [s[|s| - 1]]);
    } else {
      b := "";
    }
  }

  lemma KeyLikeExactly(s: string)
    ensures Utf8Len(s) >= 24 && '/' !in s && (forall i :: 0 <= i < |s| ==> IsSecretChar(s[i])) <==> IsKeyLike(s)
  {
    if forall i :: 0 <= i < |s| ==> IsSecretChar(s[i]) { AsciiLen(s); }
    hide Utf8Len;
  }

  /** A token is taken for a secret exactly when it is a key-like text between quoting
      characters. */
  lemma SecretExactly(token: string)
    ensures IsSecret(token) <==> QuotesKey(token)
  {
    hide Utf8Len, IsSecretChar, StripStart, StripEnd;
    if a: string, s: string, b: string :| token == a + s + b && Quotes(a) && IsKeyLike(s) && Quotes(b) {
      assert !IsQuoting(s[0]) && !IsQuoting(s[|s| - 1]);
      Assoc(a, s, b);
      HeadOfConcat(s, b);
      StripStartOf(a, s + b);
      StripEndOf(s, b);
      KeyLikeExactly(s);
    }
    if IsSecret(token) {
      var a := StripStartParts(token);
      var t := StripStart(token);
      var b := StripEndParts(t);
      var s := StripEnd(t);
      KeyLikeExactly(s);
      Assoc(a, s, b);
      assert token == a + s + b;
    }
  }

  /** Redaction turns each token that is a key-like text between quoting characters into stars
      and keeps every other, in place; none it would itself redact is left. */
  lemma RedactedTokens(message: string)
    ensures var before, after := Tokens(message), Tokens(RedactSecrets(message));
            && |after| == |before|
            && forall i :: 0 <= i < |after| ==>
                 !QuotesKey(after[i]) && after[i] == if QuotesKey(before[i]) then "***" else before[i]
  {
    hide IsSecret, QuotesKey;
    TokensAreWords(message);
    StarsAreNoSecret();
    TokensJoin(RedactTokens(Tokens(message)));
    forall t: string ensures IsSecret(t) <==> QuotesKey(t) { SecretExactly(t); }
  }

  // Words with a gap before each and one after the last.
  function Weave(gaps: seq<string>, words: seq<string>): string
    requires |gaps| == |words| + 1
  {
    if words == [] then gaps[0] else gaps[0] + (words[0] + Weave(gaps[1..], words[1..]))
  }

  // The gaps of a normalized message: one space between words, nothing around them.
  function SingleSpaces(n: nat): (gaps: seq<string>)
    ensures |gaps| == n + 1
    ensures forall i :: 0 <= i <= n ==> gaps[i] == if 0 < i < n then " " else ""
  {
    seq(n + 1, i requires 0 <= i <= n => if 0 < i < n then " " else "")
  }

  lemma {:induction false} WeaveSpaces(gaps: seq<string>, words: seq<string>)
    requires |gaps| == |words| + 1 && words != []
    requires forall i :: 0 < i < |words| ==> gaps[i] == " "
    requires gaps[|words|] == ""
    ensures Weave(gaps, words) == gaps[0] + Join(words)
    decreases |words|
  {
    if |words| == 1 {
      assert Weave(gaps[1..], words[1..]) == "";
      assert words[0] + "" == words[0];
    } else {
      WeaveSpaces(gaps[1..], words[1..]);
      hide Join;
      assert gaps[1..][0] == " ";
      Assoc(words[0], " ", Join(words[1..]));
      JoinCons(words);
    }
  }

  lemma JoinCons(words: seq<string>)
    requires |words| > 1
    ensures Join(words) == words[0] + " " + Join(words[1..])
  {
  }

  /** The redacted message is its tokens with single spaces between them. */
  lemma RedactedForm(message: string)
    ensures var after := Tokens(RedactSecrets(message));
            RedactSecrets(message) == Weave(SingleSpaces(|after|), after)
  {
    TokensAreWords(message);
    StarsAreNoSecret();
    var ts := RedactTokens(Tokens(message));
    TokensJoin(ts);
    hide Tokens, IsSecret;
    if ts != [] {
      hide Weave, Join;
      WeaveSpaces(SingleSpaces(|ts|), ts);
      assert "" + Join(ts) == Join(ts);
    }
  }

  lemma {:induction false} TokensSkip(gap: string, rest: string)
    requires Blank(gap)
    ensures Tokens(gap + rest) == Tokens(rest)
  {
    if gap == "" {
      assert gap + rest == rest;
    } else {
      assert (gap + rest)[1..] == gap[1..] + rest;
      TokensSkip(gap[1..], rest);
    }
  }

  /** The tokens of a message are its words, whatever white space stands between and around. */
  lemma {:induction false} TokensExactly(gaps: seq<string>, words: seq<string>)
    requires |gaps| == |words| + 1 && AreWords(words)
    requires forall i :: 0 <= i < |gaps| ==> Blank(gaps[i])
    requires forall i :: 0 < i < |words| ==> gaps[i] != ""
    ensures Tokens(Weave(gaps, words)) == words
    decreases |words|
  {
    hide Tokens, Blank, IsWord;
    if words == [] {
      NoTokens();
      TokensSkip(gaps[0], "");
      assert gaps[0] + "" == gaps[0];
    } else {
      var rest := Weave(gaps[1..], words[1..]);
      TokensExactly(gaps[1..], words[1..]);
      TokensSkip(gaps[0], words[0] + rest);
      WeaveStarts(gaps[1..], words[1..]);
      FirstToken(words[0], rest);
      HeadTail(words);
    }
  }

  lemma NoTokens()
    ensures Tokens("") == []
  {
  }

  lemma WeaveStarts(gaps: seq<string>, words: seq<string>)
    requires |gaps| == |words| + 1 && Blank(gaps[0]) && (words != [] ==> gaps[0] != "")
    ensures Weave(gaps, words) == "" || IsWhitespace(Weave(gaps, words)[0])
  {
    hide IsWhitespace;
    if gaps[0] != "" { assert Weave(gaps, words)[0] == gaps[0][0]; }
  }

  lemma RedactIdempotent(message: string)
    ensures RedactSecrets(RedactSecrets(message)) == RedactSecrets(message)
  {
    hide IsSecret, Tokens, Join;
    TokensAreWords(message);
    StarsAreNoSecret();
    var ts := RedactTokens(Tokens(message));
    TokensJoin(ts);
    assert RedactTokens(ts) == ts;
  }
}
