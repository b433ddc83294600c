/** User names inside LDAP distinguished names (internal/auth/ldap.go), against the string
    form of section 2.4 of RFC 4514. */
module DirectoryNames {
  import opened Text

  // The characters escaped wherever they stand.
  predicate IsSpecial(c: char) {
    c in {'"', '+', ',', ';', '<', '>', '\\'}
  }

  // Character i of v as escapeDNValue writes it.
  function EscapedChar(v: string, i: nat): string
    requires i < |v|
  {
    if IsSpecial(v[i]) || (v[i] in {' ', '#'} && (i == 0 || i == |v| - 1)) then ['\\', v[i]] else [v[i]]
  }

  function EscapedFrom(v: string, i: nat): string
    requires i <= |v|
    decreases |v| - i
  {
    if i == |v| then "" else EscapedChar(v, i) + EscapedFrom(v, i + 1)
  }

  function Escaped(v: string): string {
    EscapedFrom(v, 0)
  }

  method EscapeDnValue(v: string) returns (out: string)
    ensures out == Escaped(v)
  {
    if v == "" {
      return "";
    }
    var last := |v| - 1;
    out := "";
    for i := 0 to |v|
      invariant out + EscapedFrom(v, i) == Escaped(v)
    {
      var c := v[i];
      Assoc(out, EscapedChar(v, i), EscapedFrom(v, i + 1));
      if IsSpecial(c) {
        out := out + ['\\', c];
      } else if c == ' ' || c == '#' {
        if i == 0 || i == last {
          out := out + ['\\', c];
        } else {
          out := out + [c];
        }
      } else {
        out := out + [c];
      }
    }
    assert out + "" == out;
  }

  // ---- reading an attribute value ------------------------------------------------------------

  function Cons(c: char, rest: Option<string>): Option<string> {
    if rest.None? then None else Some([c] + rest.value)
  }

  // The value a string form denotes; None when the grammar does not admit it. first says
  // whether s stands at the front of the value.
  function Decoded(s: string, first: bool): Option<string> {
    if s == "" then Some("")
    else if s[0] == '\\' then
      if |s| >= 2 && (IsSpecial(s[1]) || s[1] in {' ', '#', '='}) then Cons(s[1], Decoded(s[2..], false))
      else if |s| >= 3 && HexValue(s[1]).Some? && HexValue(s[2]).Some?
      then Cons((HexValue(s[1]).value * 16 + HexValue(s[2]).value) as char, Decoded(s[3..], false))
      else None
    else if IsSpecial(s[0]) || s[0] == '\0' then None
    else if first && s[0] in {' ', '#'} then None
    else if s[0] == ' ' && |s| == 1 then None
    else Cons(s[0], Decoded(s[1..], false))
  }

  lemma {:induction false} DecodedFrom(v: string, i: nat)
    requires i <= |v|
    ensures Decoded(EscapedFrom(v, i), i == 0) == if '\0' in v[i..] then None else Some(v[i..])
    ensures i < |v| ==> EscapedFrom(v, i) != ""
    decreases |v| - i
  {
    if i < |v| {
      var s, rest := EscapedFrom(v, i), EscapedFrom(v, i + 1);
      DecodedFrom(v, i + 1);
      assert v[i..] == [v[i]] + v[i + 1..];
      assert '\0' in v[i..] <==> v[i] == '\0' || '\0' in v[i + 1..];
      if |EscapedChar(v, i)| == 2 {
        assert s[0] == '\\' && s[1] == v[i] && s[2..] == rest;
        assert Decoded(s, i == 0) == Cons(v[i], Decoded(rest, false));
      } else {
        assert s[0] == v[i] && s[1..] == rest;
        assert v[i] != '\0' ==> Decoded(s, i == 0) == Cons(v[i], Decoded(rest, false));
      }
    } else {
      assert v[i..] == "";
    }
  }

  /** Escaping is the inverse of reading: the escaped form of a name is an admissible
      attribute value denoting that very name, exactly when the name holds no NUL. */
  lemma EscapeRoundTrip(v: string)
    ensures Decoded(Escaped(v), true) == if '\0' in v then None else Some(v)
  {
    DecodedFrom(v, 0);
    assert v[0..] == v;
  }

  // The character at i gets a backslash: one of the seven anywhere, a space or a hash at
  // either end.
  predicate NeedsBackslash(v: string, i: nat)
    requires i < |v|
  {
    || v[i] in {'"', '+', ',', ';', '<', '>', '\\'}
    || (v[i] in {' ', '#'} && (i == 0 || i + 1 == |v|))
  }

  // The string form v would have if it were written out from position i on.
  ghost predicate WrittenFrom(v: string, i: nat, out: string)
    requires i <= |v|
    decreases |v| - i
  {
    if i == |v| then out == ""
    else if NeedsBackslash(v, i) then |out| >= 2 && out[0] == '\\' && out[1] == v[i] && WrittenFrom(v, i + 1, out[2..])
    else |out| >= 1 && out[0] == v[i] && WrittenFrom(v, i + 1, out[1..])
  }

  // Reading the escaped form from the left meets the characters of the name one by one, a
  // backslash before exactly those that need it.
  lemma {:induction false} EscapedIsWritten(v: string, i: nat)
    requires i <= |v|
    ensures WrittenFrom(v, i, EscapedFrom(v, i))
    decreases |v| - i
  {
    if i < |v| {
      var out, rest := EscapedFrom(v, i), EscapedFrom(v, i + 1);
      EscapedIsWritten(v, i + 1);
      if NeedsBackslash(v, i) {
        assert out[2..] == rest;
      } else {
        assert out[1..] == rest;
      }
    }
  }

  // A name without any of the seven, and without a space or hash at its ends, stays as it is.
  lemma EscapeLeavesPlain(v: string)
    requires forall i :: 0 <= i < |v| ==> v[i] !in {'"', '+', ',', ';', '<', '>', '\\'}
    requires v != "" ==> v[0] !in {' ', '#'} && v[|v| - 1] !in {' ', '#'}
    ensures Escaped(v) == v
  {
    PlainFrom(v, 0);
  }

  lemma {:induction false} PlainFrom(v: string, i: nat)
    requires forall k :: 0 <= k < |v| ==> v[k] !in {'"', '+', ',', ';', '<', '>', '\\'}
    requires v != "" ==> v[0] !in {' ', '#'} && v[|v| - 1] !in {' ', '#'}
    requires i <= |v|
    ensures EscapedFrom(v, i) == v[i..]
    decreases |v| - i
  {
    if i < |v| {
      PlainFrom(v, i + 1);
      assert v[i..] == [v[i]] + v[i + 1..];
    }
  }

  // ---- a name inside a pattern -----------------------------------------------------------------

  // The separators of a distinguished name that no backslash covers; escaped says whether
  // the first character is covered.
  function Separators(s: string, escaped: bool): nat {
    if s == "" then 0
    else
      (if !escaped && s[0] in {',', '+', ';'} then 1 else 0) + Separators(s[1..], !escaped && s[0] == '\\')
  }

  // Whether the character after s is covered.
  predicate Covers(s: string, escaped: bool) {
    if s == "" then escaped else Covers(s[1..], !escaped && s[0] == '\\')
  }

  lemma {:induction false} SeparatorsConcat(a: string, b: string, escaped: bool)
    ensures Separators(a + b, escaped) == Separators(a, escaped) + Separators(b, Covers(a, escaped))
    ensures Covers(a + b, escaped) == Covers(b, Covers(a, escaped))
  {
    if a == "" {
      assert a + b == b;
    } else {
      assert (a + b)[1..] == a[1..] + b;
      SeparatorsConcat(a[1..], b, !escaped && a[0] == '\\');
    }
  }

  // An escaped name adds no separator of its own.
  lemma {:induction false} EscapedIsFlat(v: string, i: nat)
    requires i <= |v|
    ensures Separators(EscapedFrom(v, i), false) == 0 && !Covers(EscapedFrom(v, i), false)
    decreases |v| - i
  {
    if i < |v| {
      var head, rest := EscapedChar(v, i), EscapedFrom(v, i + 1);
      EscapedIsFlat(v, i + 1);
      SeparatorsConcat(head, rest, false);
      if |head| == 2 {
        assert head[1..] == [v[i]] && head[1..][1..] == "";
      } else {
        assert head[1..] == "";
      }
    }
  }

  const PLACEHOLDER := ['{', '0', '}']

  // strings.ReplaceAll(pattern, "{0}", value)
  function Substituted(pattern: string, value: string): string {
    if pattern == "" then ""
    else if HasPrefix(pattern, PLACEHOLDER) then value + Substituted(pattern[3..], value)
    else [pattern[0]] + Substituted(pattern[1..], value)
  }

  function DirectUserDn(pattern: string, username: string): string {
    Substituted(pattern, Escaped(username))
  }

  // How many placeholders a backslash covers.
  function CoveredPlaceholders(pattern: string, escaped: bool): nat {
    if pattern == "" then 0
    else if HasPrefix(pattern, PLACEHOLDER) then (if escaped then 1 else 0) + CoveredPlaceholders(pattern[3..], false)
    else CoveredPlaceholders(pattern[1..], !escaped && pattern[0] == '\\')
  }

  lemma PlaceholderIsFlat(escaped: bool)
    ensures Separators(PLACEHOLDER, escaped) == 0 && !Covers(PLACEHOLDER, escaped)
  {
    var p1, p2 := PLACEHOLDER[1..], PLACEHOLDER[1..][1..];
    assert p1 == ['0', '}'] && p2 == ['}'] && p2[1..] == "";
    assert Separators(p2, false) == 0 && !Covers(p2, false);
    assert Separators(p1, false) == 0 && !Covers(p1, false);
  }

  lemma SplitPlaceholder(pattern: string, escaped: bool)
    requires HasPrefix(pattern, PLACEHOLDER)
    ensures Separators(pattern, escaped) == Separators(pattern[3..], false)
  {
    assert pattern == PLACEHOLDER + pattern[3..];
    PlaceholderIsFlat(escaped);
    SeparatorsConcat(PLACEHOLDER, pattern[3..], escaped);
  }

  lemma SplitChar(c: char, s: string, escaped: bool)
    ensures Separators([c] + s, escaped) ==
            (if !escaped && c in {',', '+', ';'} then 1 else 0) + Separators(s, !escaped && c == '\\')
  {
    assert ([c] + s)[1..] == s;
  }

  lemma {:induction false} SubstitutionKeepsSeparators(pattern: string, value: string, escaped: bool)
    requires Separators(value, false) == 0 && !Covers(value, false)
    requires CoveredPlaceholders(pattern, escaped) == 0
    ensures Separators(Substituted(pattern, value), escaped) == Separators(pattern, escaped)
  {
    if pattern == "" {
    } else if HasPrefix(pattern, PLACEHOLDER) {
      SubstitutionKeepsSeparators(pattern[3..], value, false);
      SplitPlaceholder(pattern, escaped);
      SeparatorsConcat(value, Substituted(pattern[3..], value), false);
    } else {
      var next := !escaped && pattern[0] == '\\';
      SubstitutionKeepsSeparators(pattern[1..], value, next);
      SplitChar(pattern[0], Substituted(pattern[1..], value), escaped);
    }
  }

  // The name "," becomes a separator under every covered placeholder.
  lemma {:induction false} CommaSplices(pattern: string, escaped: bool)
    ensures Separators(Substituted(pattern, ['\\', ',']), escaped) ==
            Separators(pattern, escaped) + CoveredPlaceholders(pattern, escaped)
  {
    var value := ['\\', ','];
    if pattern == "" {
    } else if HasPrefix(pattern, PLACEHOLDER) {
      CommaSplices(pattern[3..], false);
      SplitPlaceholder(pattern, escaped);
      SeparatorsConcat(value, Substituted(pattern[3..], value), escaped);
      assert value[1..] == [','] && value[1..][1..] == "";
    } else {
      var next := !escaped && pattern[0] == '\\';
      CommaSplices(pattern[1..], next);
      SplitChar(pattern[0], Substituted(pattern[1..], value), escaped);
    }
  }

  /** A user name, whatever it holds, never adds a separator to the pattern's
      distinguished name, exactly when no backslash covers a placeholder of the pattern. */
  lemma NameNeverSplices(pattern: string)
    ensures (forall username :: Separators(DirectUserDn(pattern, username), false) == Separators(pattern, false)) <==>
            CoveredPlaceholders(pattern, false) == 0
  {
    if CoveredPlaceholders(pattern, false) == 0 {
      forall username ensures Separators(DirectUserDn(pattern, username), false) == Separators(pattern, false) {
        EscapedIsFlat(username, 0);
        SubstitutionKeepsSeparators(pattern, Escaped(username), false);
      }
    } else {
      CommaSplices(pattern, false);
      CommaEscapes();
      assert Separators(DirectUserDn(pattern, ","), false) != Separators(pattern, false);
    }
  }

  lemma CommaEscapes()
    ensures Escaped(",") == ['\\', ',']
  {
    assert EscapedFrom(",", 1) == "";
    assert EscapedChar(",", 0) == ['\\', ','];
    assert EscapedFrom(",", 0) == EscapedChar(",", 0) + EscapedFrom(",", 1);
  }

  // A placeholder behind a backslash: the name "," adds a separator to a pattern of none.
  lemma CoveredPlaceholderSplices()
    ensures var pattern := ['\\'] + PLACEHOLDER;
            && CoveredPlaceholders(pattern, false) == 1 && Separators(pattern, false) == 0
            && Separators(DirectUserDn(pattern, [',']), false) == 1
  {
    var pattern := ['\\'] + PLACEHOLDER;
    assert pattern[1..] == PLACEHOLDER && PLACEHOLDER[3..] == "";
    assert CoveredPlaceholders(PLACEHOLDER, true) == 1 + CoveredPlaceholders("", false);
    PlaceholderIsFlat(true);
    SplitChar('\\', PLACEHOLDER, false);
    CommaSplices(pattern, false);
    CommaEscapes();
  }

  // A NUL goes through unescaped, and no reader admits it.
  lemma NulIsNotEscaped()
    ensures Escaped(['\0']) == ['\0'] && Decoded(Escaped(['\0']), true) == None
  {
    assert EscapedFrom(['\0'], 1) == "";
    EscapeRoundTrip(['\0']);
  }
}
