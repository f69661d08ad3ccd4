/**
  The CEF header-field escaper of `com.lespea.cef.utils.StringUtils`.

  `escapeField` passes a null field through, rejects a field that its
  INVALID_FIELD_PATTERN (`.*[\r\n].*`, whole-string match, no DOTALL)
  matches, and otherwise puts a backslash in front of every `|` and `\`
  with one `replaceAll` of ESCAPE_FIELD_PATTERN (`([|\\])`).
 */
module StringUtils {
  import opened Wrappers

  type String = seq<char>

  /** Number of characters of `s` that satisfy `p`. */
  function Count(s: String, p: char -> bool): nat {
    if s == [] then 0 else (if p(s[0]) then 1 else 0) + Count(s[1..], p)
  }

  lemma {:induction false} CountAppend(a: String, b: String, p: char -> bool)
    ensures Count(a + b, p) == Count(a, p) + Count(b, p)
  {
    if a == [] {
      assert a + b == b;
    } else {
      assert (a + b)[1..] == a[1..] + b;
      CountAppend(a[1..], b, p);
    }
  }

  // ---------------------------------------------------------------------
  // INVALID_FIELD_PATTERN: `.*[\r\n].*` under Matcher.matches()
  // ---------------------------------------------------------------------

  const CR: char := '\r'
  const LF: char := '\n'
  /** NEXT LINE, LINE SEPARATOR and PARAGRAPH SEPARATOR */
  const NEL: char := '\U{0085}'
  const LS: char := '\U{2028}'
  const PS: char := '\U{2029}'

  /** The line terminators that Java's `.` refuses when DOTALL is off. */
  predicate IsLineTerminator(c: char) {
    c == CR || c == LF || c == NEL || c == LS || c == PS
  }

  /** The character class `[\r\n]`. */
  predicate IsBreak(c: char) {
    c == CR || c == LF
  }

  /** Every character of `s` is matched by `.`, so `.*` matches all of `s`. */
  predicate AllDot(s: String) {
    forall i :: 0 <= i < |s| ==> !IsLineTerminator(s[i])
  }

  /**
    The regular expression read literally: the whole of `s` splits into a
    run matched by `.*`, one character of `[\r\n]`, and a run matched by `.*`.
   */
  ghost predicate InvalidPatternMatches(s: String) {
    exists i :: 0 <= i < |s| && AllDot(s[..i]) && IsBreak(s[i]) && AllDot(s[i + 1..])
  }

  /**
    Deciding the match: skip the characters `.` accepts; the first one it
    refuses must be CR or LF, and `.` must accept everything after it.
   */
  predicate Rejects(s: String) {
    if s == [] then false
    else if IsBreak(s[0]) then AllDot(s[1..])
    else if IsLineTerminator(s[0]) then false
    else Rejects(s[1..])
  }

  function TerminatorCount(s: String): nat {
    Count(s, IsLineTerminator)
  }

  function BreakCount(s: String): nat {
    Count(s, IsBreak)
  }

  /** A non-empty run matched by `.*` starts with a character `.` accepts. */
  lemma DotPrefixHead(s: String, i: nat)
    requires i <= |s| && AllDot(s[..i])
    ensures 0 < i ==> !IsLineTerminator(s[0])
  {
    if 0 < i {
      assert s[..i][0] == s[0];
    }
  }

  /** When `s` starts with CR or LF, that character is the pattern's `[\r\n]`. */
  lemma PatternAtBreak(s: String)
    requires |s| > 0 && IsBreak(s[0])
    ensures InvalidPatternMatches(s) <==> AllDot(s[1..])
  {
    if AllDot(s[1..]) {
      assert s[..0] == [];
      assert AllDot(s[..0]) && IsBreak(s[0]) && AllDot(s[0 + 1..]);
    }
    forall i | 0 <= i < |s| && AllDot(s[..i]) && IsBreak(s[i]) && AllDot(s[i + 1..])
      ensures AllDot(s[1..])
    {
      DotPrefixHead(s, i);
    }
  }

  /** When `s` starts with a terminator other than CR and LF, the pattern cannot match. */
  lemma PatternAtOtherTerminator(s: String)
    requires |s| > 0 && IsLineTerminator(s[0]) && !IsBreak(s[0])
    ensures !InvalidPatternMatches(s)
  {
    forall i | 0 <= i < |s| && AllDot(s[..i])
      ensures !IsBreak(s[i])
    {
      DotPrefixHead(s, i);
    }
  }

  /** A leading character that `.` accepts belongs to the first `.*`. */
  lemma PatternSkipDot(s: String)
    requires |s| > 0 && !IsLineTerminator(s[0])
    ensures InvalidPatternMatches(s) <==> InvalidPatternMatches(s[1..])
  {
    var t := s[1..];
    forall i | 0 <= i < |t| && AllDot(t[..i]) && IsBreak(t[i]) && AllDot(t[i + 1..])
      ensures InvalidPatternMatches(s)
    {
      assert s[..i + 1] == [s[0]] + t[..i];
      assert s[i + 1 + 1..] == t[i + 1..];
      assert AllDot(s[..i + 1]) && IsBreak(s[i + 1]) && AllDot(s[i + 1 + 1..]);
    }
    forall i | 0 <= i < |s| && AllDot(s[..i]) && IsBreak(s[i]) && AllDot(s[i + 1..])
      ensures InvalidPatternMatches(t)
    {
      assert 0 < i;
      assert t[..i - 1] == s[1..i];
      assert t[i - 1 + 1..] == s[i + 1..];
      assert AllDot(t[..i - 1]) && IsBreak(t[i - 1]) && AllDot(t[i - 1 + 1..]);
    }
  }

  /** The decision procedure agrees with the regular expression on every string. */
  lemma {:induction false} RejectsMatchesPattern(s: String)
    ensures Rejects(s) <==> InvalidPatternMatches(s)
  {
    if s == [] {
    } else if IsBreak(s[0]) {
      PatternAtBreak(s);
    } else if IsLineTerminator(s[0]) {
      PatternAtOtherTerminator(s);
    } else {
      PatternSkipDot(s);
      RejectsMatchesPattern(s[1..]);
    }
  }

  lemma {:induction false} AllDotIffNoTerminator(s: String)
    ensures AllDot(s) <==> TerminatorCount(s) == 0
  {
    if s != [] {
      AllDotIffNoTerminator(s[1..]);
      if AllDot(s) {
        assert forall i :: 0 <= i < |s[1..]| ==> s[1..][i] == s[i + 1];
      }
      if TerminatorCount(s) == 0 {
        forall i | 0 <= i < |s| ensures !IsLineTerminator(s[i]) {
          if i > 0 {
            assert s[i] == s[1..][i - 1];
          }
        }
      }
    }
  }

  lemma {:induction false} BreaksAreTerminators(s: String)
    ensures BreakCount(s) <= TerminatorCount(s)
  {
    if s != [] {
      BreaksAreTerminators(s[1..]);
    }
  }

  /**
    Exact characterisation: a field is rejected exactly when it holds ONE
    line terminator and that terminator is CR or LF.
   */
  lemma {:induction false} RejectsIffSingleBreak(s: String)
    ensures Rejects(s) <==> TerminatorCount(s) == 1 && BreakCount(s) == 1
  {
    if s != [] {
      BreaksAreTerminators(s[1..]);
      if IsBreak(s[0]) {
        AllDotIffNoTerminator(s[1..]);
      } else if !IsLineTerminator(s[0]) {
        RejectsIffSingleBreak(s[1..]);
      }
    }
  }

  // ---------------------------------------------------------------------
  // ESCAPE_FIELD_PATTERN: `([|\\])` replaced by `\\$1`
  // ---------------------------------------------------------------------

  /** The character class `[|\\]`: the characters a header field escapes. */
  predicate IsSpecial(c: char) {
    c == '|' || c == '\\'
  }

  function SpecialCount(s: String): nat {
    Count(s, IsSpecial)
  }

  /** What one character of the field becomes. */
  function EscapeChar(c: char): String {
    if IsSpecial(c) then ['\\', c] else [c]
  }

  /** The escaping rule, character by character, in order. */
  function Escape(s: String): String {
    if s == [] then [] else EscapeChar(s[0]) + Escape(s[1..])
  }

  /**
    Matcher.find from `from`: the index of the next match of
    ESCAPE_FIELD_PATTERN, or |s| when there is none.
   */
  function FindSpecial(s: String, from: nat): (k: nat)
    requires from <= |s|
    ensures from <= k <= |s|
    ensures k < |s| ==> IsSpecial(s[k])
    ensures forall j :: from <= j < k ==> !IsSpecial(s[j])
    decreases |s| - from
  {
    if from == |s| || IsSpecial(s[from]) then from else FindSpecial(s, from + 1)
  }

  /**
    Matcher.replaceAll("\\\\$1") resumed at `from`: copy the text up to the
    next match, emit a backslash and the matched character, and go on after
    the match; the text it emitted is never searched again.
   */
  function ReplaceAllFrom(s: String, from: nat): String
    requires from <= |s|
    decreases |s| - from
  {
    var k := FindSpecial(s, from);
    if k == |s| then s[from..] else s[from..k] + ['\\', s[k]] + ReplaceAllFrom(s, k + 1)
  }

  function ReplaceAll(s: String): String {
    ReplaceAllFrom(s, 0)
  }

  /** Escaping distributes over concatenation. */
  lemma {:induction false} EscapeAppend(a: String, b: String)
    ensures Escape(a + b) == Escape(a) + Escape(b)
  {
    if a == [] {
      assert a + b == b;
    } else {
      assert (a + b)[0] == a[0];
      assert (a + b)[1..] == a[1..] + b;
      EscapeAppend(a[1..], b);
    }
  }

  /** Character `i` of the field becomes EscapeChar(s[i]), between the images of what precedes and follows it. */
  lemma {:induction false} EscapePerCharacter(s: String, i: nat)
    requires i < |s|
    ensures Escape(s) == Escape(s[..i]) + EscapeChar(s[i]) + Escape(s[i + 1..])
  {
    assert s == s[..i] + s[i..];
    EscapeAppend(s[..i], s[i..]);
  }

  /** The output is as long as the input plus one backslash per `|` or `\`. */
  lemma {:induction false} EscapeLength(s: String)
    ensures |Escape(s)| == |s| + SpecialCount(s)
  {
    if s != [] {
      EscapeLength(s[1..]);
    }
  }

  /** A field with no `|` and no `\` comes back unchanged. */
  lemma {:induction false} EscapeIdentity(s: String)
    requires SpecialCount(s) == 0
    ensures Escape(s) == s
  {
    if s != [] {
      EscapeIdentity(s[1..]);
    }
  }

  /** Escaping a run free of `|` and `\` copies it: the text replaceAll copies up to a match. */
  lemma EscapeUpToMatch(s: String, from: nat, k: nat)
    requires from <= k <= |s|
    requires forall j :: from <= j < k ==> !IsSpecial(s[j])
    ensures Escape(s[from..]) == s[from..k] + Escape(s[k..])
  {
    NoSpecialCount(s[from..k]);
    EscapeIdentity(s[from..k]);
    assert s[from..] == s[from..k] + s[k..];
    EscapeAppend(s[from..k], s[k..]);
  }

  /** The literal replaceAll computes the character-by-character escape. */
  lemma {:induction false} ReplaceAllFromIsEscape(s: String, from: nat)
    requires from <= |s|
    ensures ReplaceAllFrom(s, from) == Escape(s[from..])
    decreases |s| - from
  {
    var k := FindSpecial(s, from);
    EscapeUpToMatch(s, from, k);
    if k < |s| {
      assert s[k..][0] == s[k] && s[k..][1..] == s[k + 1..];
      assert Escape(s[k..]) == ['\\', s[k]] + Escape(s[k + 1..]);
      ReplaceAllFromIsEscape(s, k + 1);
    } else {
      assert s[k..] == [];
    }
  }

  lemma {:induction false} NoSpecialCount(s: String)
    requires forall j :: 0 <= j < |s| ==> !IsSpecial(s[j])
    ensures SpecialCount(s) == 0
  {
    if s != [] {
      NoSpecialCount(s[1..]);
    }
  }

  lemma ReplaceAllIsEscape(s: String)
    ensures ReplaceAll(s) == Escape(s)
  {
    assert s[0..] == s;
    ReplaceAllFromIsEscape(s, 0);
  }

  // ---------------------------------------------------------------------
  // Reading an escaped field back
  // ---------------------------------------------------------------------

  /**
    Decodes a header field: each `\x` pair with `x` in `[|\\]` gives `x`;
    a lone `|`, a trailing `\` or a `\` before any other character is
    malformed.
   */
  function Unescape(t: String): Option<String> {
    if t == [] then Some([])
    else if t[0] == '|' then None
    else if t[0] == '\\' then
      if |t| >= 2 && IsSpecial(t[1]) then
        match Unescape(t[2..])
        case None => None
        case Some(rest) => Some([t[1]] + rest)
      else None
    else
      match Unescape(t[1..])
      case None => None
      case Some(rest) => Some([t[0]] + rest)
  }

  /** Decoding an escaped field recovers the field exactly. */
  lemma {:induction false} UnescapeEscape(s: String)
    ensures Unescape(Escape(s)) == Some(s)
  {
    if s != [] {
      var c, rest := s[0], Escape(s[1..]);
      UnescapeEscape(s[1..]);
      if IsSpecial(c) {
        assert (['\\', c] + rest)[2..] == rest;
      } else {
        assert ([c] + rest)[1..] == rest;
      }
      assert [c] + s[1..] == s;
    }
  }

  /** Escape is onto the decodable strings: whatever decodes is the escape of what it decodes to. */
  lemma {:induction false} EscapeUnescape(t: String, s: String)
    requires Unescape(t) == Some(s)
    ensures Escape(s) == t
  {
    if t != [] {
      if t[0] == '\\' {
        var rest :| Unescape(t[2..]) == Some(rest);
        EscapeUnescape(t[2..], rest);
        assert s == [t[1]] + rest;
        assert s[1..] == rest;
        assert t == ['\\', t[1]] + t[2..];
      } else {
        var rest :| Unescape(t[1..]) == Some(rest);
        EscapeUnescape(t[1..], rest);
        assert s == [t[0]] + rest;
        assert s[1..] == rest;
        assert t == [t[0]] + t[1..];
      }
    }
  }

  /** No `|` in an escaped field stands alone: a backslash is right before it. */
  lemma {:induction false} EscapedPipesArePrefixed(s: String)
    ensures forall j :: 0 <= j < |Escape(s)| && Escape(s)[j] == '|' ==> j > 0 && Escape(s)[j - 1] == '\\'
  {
    if s != [] {
      EscapedPipesArePrefixed(s[1..]);
      var e, rest := EscapeChar(s[0]), Escape(s[1..]);
      assert Escape(s) == e + rest;
      forall j | 0 <= j < |e + rest| && (e + rest)[j] == '|' ensures j > 0 && (e + rest)[j - 1] == '\\' {
        if j >= |e| {
          assert (e + rest)[j] == rest[j - |e|];
          if j - |e| > 0 {
            assert (e + rest)[j - 1] == rest[j - |e| - 1];
          }
        }
      }
    }
  }

  /** Escaping doubles the number of `|` and `\`. */
  lemma {:induction false} EscapeDoublesSpecials(s: String)
    ensures SpecialCount(Escape(s)) == 2 * SpecialCount(s)
  {
    if s != [] {
      EscapeDoublesSpecials(s[1..]);
      CountAppend(EscapeChar(s[0]), Escape(s[1..]), IsSpecial);
    }
  }

  /** Escaping keeps every line terminator, CR and LF among them. */
  lemma {:induction false} EscapeKeepsTerminators(s: String)
    ensures TerminatorCount(Escape(s)) == TerminatorCount(s)
    ensures BreakCount(Escape(s)) == BreakCount(s)
  {
    if s != [] {
      EscapeKeepsTerminators(s[1..]);
      CountAppend(EscapeChar(s[0]), Escape(s[1..]), IsLineTerminator);
      CountAppend(EscapeChar(s[0]), Escape(s[1..]), IsBreak);
    }
  }

  /** Escaping is not idempotent: a field holding `|` or `\` changes again when escaped twice. */
  lemma EscapeNotIdempotent(s: String)
    requires SpecialCount(s) > 0
    ensures Escape(Escape(s)) != Escape(s)
  {
    EscapeDoublesSpecials(s);
    EscapeLength(Escape(s));
  }

  // ---------------------------------------------------------------------
  // escapeField
  // ---------------------------------------------------------------------

  /** The outcome of escapeField: a (possibly null) string, or the InvalidField exception with its message. */
  datatype FieldResult = Ok(value: Option<String>) | InvalidField(message: String)

  /** The message the InvalidField exception is raised with. */
  function InvalidFieldMessage(s: String): String {
    "The field string " + s + " contained an invalid character"
  }

  /** StringUtils.escapeField */
  function EscapeField(field: Option<String>): (r: FieldResult)
    ensures field.None? ==> r == Ok(None)
    ensures field.Some? ==> (r.InvalidField? <==> InvalidPatternMatches(field.value))
    ensures field.Some? && r.InvalidField? ==> r.message == InvalidFieldMessage(field.value)
    ensures field.Some? && r.Ok? ==> r.value == Some(Escape(field.value))
  {
    match field
    case None => Ok(None)
    case Some(s) =>
      RejectsMatchesPattern(s);
      ReplaceAllIsEscape(s);
      if Rejects(s) then InvalidField(InvalidFieldMessage(s)) else Ok(Some(ReplaceAll(s)))
  }

  /** A field with neither CR nor LF is escaped, never rejected. */
  lemma NoBreakIsEscaped(s: String)
    requires forall i :: 0 <= i < |s| ==> !IsBreak(s[i])
    ensures EscapeField(Some(s)) == Ok(Some(Escape(s)))
  {
  }

  /** A field whose only line terminator is one CR or LF, wherever it stands, is rejected. */
  lemma SingleBreakIsRejected(before: String, c: char, after: String)
    requires AllDot(before) && IsBreak(c) && AllDot(after)
    ensures EscapeField(Some(before + [c] + after)) == InvalidField(InvalidFieldMessage(before + [c] + after))
  {
    var s := before + [c] + after;
    var i := |before|;
    assert s[..i] == before && s[i] == c && s[i + 1..] == after;
    assert InvalidPatternMatches(s);
  }

  /**
    A field holding two or more line terminators (CR LF, two LFs, ...) is
    NOT rejected: `.` cannot run across a terminator, so the pattern has no
    match, and the field is escaped like any other.
   */
  lemma SeveralTerminatorsAreEscaped(s: String)
    requires TerminatorCount(s) >= 2
    ensures EscapeField(Some(s)) == Ok(Some(Escape(s)))
  {
    RejectsIffSingleBreak(s);
  }

  /** Rejection, exactly: EscapeField(Some(s)) fails iff s holds one line terminator and it is CR or LF. */
  lemma EscapeFieldRejectsIff(s: String)
    ensures EscapeField(Some(s)).InvalidField? <==> TerminatorCount(s) == 1 && BreakCount(s) == 1
  {
    RejectsMatchesPattern(s);
    RejectsIffSingleBreak(s);
  }

  /**
    The output of an accepted field is accepted again and escaped further,
    so escapeField is not idempotent on fields holding `|` or `\`.
   */
  lemma EscapeFieldNotIdempotent(s: String, t: String)
    requires EscapeField(Some(s)) == Ok(Some(t))
    requires SpecialCount(s) > 0
    ensures EscapeField(Some(t)).Ok? && EscapeField(Some(t)) != Ok(Some(t))
  {
    EscapeFieldRejectsIff(s);
    EscapeFieldRejectsIff(t);
    EscapeKeepsTerminators(s);
    EscapeNotIdempotent(s);
  }

  // ---------------------------------------------------------------------
  // Concrete fields
  // ---------------------------------------------------------------------

  /** A pipe and a backslash, each escaped. */
  lemma PipeAndBackslashExample()
    ensures EscapeField(Some("a|b\\c")) == Ok(Some("a\\|b\\\\c"))
  {
    NoBreakIsEscaped("a|b\\c");
    assert Escape("c") == "c";
    assert Escape("\\c") == "\\\\c";
    assert Escape("b\\c") == "b\\\\c";
    assert Escape("|b\\c") == "\\|b\\\\c";
    assert Escape("a|b\\c") == "a\\|b\\\\c";
  }

  /** Escaping "a|b" twice: "a\|b", then "a\\\|b". */
  lemma DoubleEscapeExample()
    ensures EscapeField(Some("a|b")) == Ok(Some("a\\|b"))
    ensures EscapeField(Some("a\\|b")) == Ok(Some("a\\\\\\|b"))
  {
    NoBreakIsEscaped("a|b");
    NoBreakIsEscaped("a\\|b");
    assert Escape("b") == "b";
    assert Escape("|b") == "\\|b";
    assert Escape("a|b") == "a\\|b";
    assert Escape("\\|b") == "\\\\\\|b";
    assert Escape("a\\|b") == "a\\\\\\|b";
  }

  /** One LF is rejected; CR LF and two LFs pass through unchanged. */
  lemma LineBreakExamples()
    ensures EscapeField(Some("a\nb")).InvalidField?
    ensures EscapeField(Some("a\r\nb")) == Ok(Some("a\r\nb"))
    ensures EscapeField(Some("a\n\nb")) == Ok(Some("a\n\nb"))
  {
    SingleBreakIsRejected("a", '\n', "b");
    assert "a" + ['\n'] + "b" == "a\nb";
    SeveralTerminatorsAreEscaped("a\r\nb");
    SeveralTerminatorsAreEscaped("a\n\nb");
    EscapeIdentity("a\r\nb");
    EscapeIdentity("a\n\nb");
  }
}
