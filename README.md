# CEF header-field escaping, modelled in Dafny

This project models `StringUtils.escapeField` from the Java CEF library
(`com.lespea.cef.utils`). The method prepares one header field of a Common
Event Format line. It does three things:

- A null field comes back as null, and no error is raised.
- A field that `INVALID_FIELD_PATTERN` (`.*[\r\n].*`) matches as a whole
  string is refused with an `InvalidField` exception. The exception's message
  is "The field string " + field + " contained an invalid character".
- Any other field has a backslash put in front of every `|` and `\`. This is
  one `replaceAll` of `ESCAPE_FIELD_PATTERN` (`([|\\])`) with `\\$1`.

Files:

- `Wrappers.dfy` holds `Option`, which stands for a Java reference that may
  be null.
- `StringUtils.dfy` holds the module `StringUtils`. It models the source
  file of the same name, and everything in it is a pure function or a lemma.
  Java's `InvalidField` exception is modelled as the `InvalidField` variant of
  `FieldResult`.

The rejection pattern is modelled three ways, and lemmas prove that all three
agree:

- `InvalidPatternMatches` reads the regular expression literally. The string
  splits into a run matched by `.*`, one CR or LF, and another run matched by
  `.*`.
- `Rejects` decides the same thing by a scan, and `EscapeField` uses it.
- `TerminatorCount` and `BreakCount` describe it by counting characters.

Without DOTALL, Java's `.` does not match the line terminators LF, CR, U+0085,
U+2028 and U+2029. So a field is refused exactly when it holds ONE line
terminator and that terminator is CR or LF. A field holding CR LF, or two LFs,
is not refused: it is escaped and returned. This is what the code does. It
differs from the doc comment at `StringUtils.java:81-82`, which says that a
field holding a line break is refused. The model
follows the code. `SeveralTerminatorsAreEscaped` and `LineBreakExamples` state
the difference.

The escaping is modelled twice, and `ReplaceAllIsEscape` proves the two agree:

- `ReplaceAllFrom` follows `Matcher.replaceAll`. It finds the next match,
  copies the text before it, emits `\` and the matched character, and resumes
  after the match.
- `Escape` is the same rule stated character by character.

`Unescape` reads an escaped field back. `UnescapeEscape` and `EscapeUnescape`
prove that escaping is a bijection onto the fields that decode.

## Model

| member | source | states |
|---|---|---|
| `StringUtils.EscapeField` | src/main/java/com/lespea/cef/utils/StringUtils.java:90-110 | null gives null with no error; a field is refused exactly when the whole-string pattern `.*[\r\n].*` matches it, and the refusal carries the message built from the field; otherwise the result is the field escaped character by character |
| `StringUtils.RejectsMatchesPattern` | src/main/java/com/lespea/cef/utils/StringUtils.java:55 | the scan used by escapeField accepts a string exactly when the regex splits it into a `.`-run, one CR or LF, and a `.`-run, where `.` refuses the five Java line terminators |
| `StringUtils.PatternAtBreak` | src/main/java/com/lespea/cef/utils/StringUtils.java:55 | for a string that starts with CR or LF, the pattern matches exactly when `.` accepts every later character |
| `StringUtils.PatternAtOtherTerminator` | src/main/java/com/lespea/cef/utils/StringUtils.java:55 | a string that starts with U+0085, U+2028 or U+2029 never matches the pattern |
| `StringUtils.PatternSkipDot` | src/main/java/com/lespea/cef/utils/StringUtils.java:55 | a leading character that `.` accepts does not decide the match: the string matches exactly when the rest of it matches |
| `StringUtils.RejectsIffSingleBreak` | src/main/java/com/lespea/cef/utils/StringUtils.java:55 | the pattern matches exactly when the string holds one line terminator and that terminator is CR or LF |
| `StringUtils.EscapeFieldRejectsIff` | src/main/java/com/lespea/cef/utils/StringUtils.java:98-102 | escapeField throws InvalidField if and only if the field holds exactly one line terminator and it is CR or LF |
| `StringUtils.NoBreakIsEscaped` | src/main/java/com/lespea/cef/utils/StringUtils.java:98-105 | a field without CR and LF is never refused; the result is its escape |
| `StringUtils.SingleBreakIsRejected` | src/main/java/com/lespea/cef/utils/StringUtils.java:98-102 | a field with one CR or LF and no other line terminator is refused, whether the break is leading, trailing or embedded, and the exception carries the message built from the field |
| `StringUtils.SeveralTerminatorsAreEscaped` | src/main/java/com/lespea/cef/utils/StringUtils.java:81-98 | a field with two or more line terminators (CR LF, two LFs) is not refused, despite the doc comment; it is escaped like any other |
| `StringUtils.LineBreakExamples` | src/main/java/com/lespea/cef/utils/StringUtils.java:98-105 | "a\nb" is refused; "a\r\nb" and "a\n\nb" come back unchanged |
| `StringUtils.FindSpecial` | src/main/java/com/lespea/cef/utils/StringUtils.java:61 | the next match of `([|\\])` at or after a position: an index holding `|` or `\` with none before it, or the end of the string when there is none |
| `StringUtils.ReplaceAllFromIsEscape` | src/main/java/com/lespea/cef/utils/StringUtils.java:105 | replaceAll, resumed at any position, produces the per-character escape of the remaining suffix |
| `StringUtils.ReplaceAllIsEscape` | src/main/java/com/lespea/cef/utils/StringUtils.java:105 | the single-pass replaceAll equals the per-character escape, so backslashes it inserts are never escaped again |
| `StringUtils.EscapeUpToMatch` | src/main/java/com/lespea/cef/utils/StringUtils.java:105 | text that holds no `|` and no `\` is copied unchanged, up to the next match |
| `StringUtils.EscapeAppend` | src/main/java/com/lespea/cef/utils/StringUtils.java:105 | escaping distributes over concatenation |
| `StringUtils.EscapePerCharacter` | src/main/java/com/lespea/cef/utils/StringUtils.java:61 | each input character is replaced in place by its own image (`\|`, `\\`, or itself), between the images of the characters before and after it |
| `StringUtils.EscapeLength` | src/main/java/com/lespea/cef/utils/StringUtils.java:105 | the output length is the input length plus the number of `|` and `\` |
| `StringUtils.EscapeIdentity` | src/main/java/com/lespea/cef/utils/StringUtils.java:105 | a field without `|` and `\` is returned unchanged |
| `StringUtils.UnescapeEscape` | src/main/java/com/lespea/cef/utils/StringUtils.java:105 | decoding each `\x` pair of the output recovers the input exactly; so every `\` in the output begins a pair ending in `|` or `\`, and no `|` stands alone |
| `StringUtils.EscapeUnescape` | src/main/java/com/lespea/cef/utils/StringUtils.java:105 | every string that decodes is the escape of what it decodes to |
| `StringUtils.EscapedPipesArePrefixed` | src/main/java/com/lespea/cef/utils/StringUtils.java:105 | every `|` in an escaped field comes right after a backslash |
| `StringUtils.EscapeDoublesSpecials` | src/main/java/com/lespea/cef/utils/StringUtils.java:105 | the output holds twice as many `|` and `\` as the input |
| `StringUtils.EscapeKeepsTerminators` | src/main/java/com/lespea/cef/utils/StringUtils.java:105 | escaping neither adds nor removes line terminators, CR and LF included |
| `StringUtils.EscapeNotIdempotent` | src/main/java/com/lespea/cef/utils/StringUtils.java:105 | escaping a field that holds `|` or `\` a second time changes it again |
| `StringUtils.EscapeFieldNotIdempotent` | src/main/java/com/lespea/cef/utils/StringUtils.java:98-109 | the output of an accepted field that holds `|` or `\` is accepted again and differs from its own escape |
| `StringUtils.PipeAndBackslashExample` | src/main/java/com/lespea/cef/utils/StringUtils.java:105 | `a\|b\\c` is escaped to `a\\\|b\\\\c` (Dafny string-literal spelling): the pipe and the backslash each get one backslash |
| `StringUtils.DoubleEscapeExample` | src/main/java/com/lespea/cef/utils/StringUtils.java:105 | "a\|b" escapes to "a\\\|b", which escapes to "a\\\\\\\|b" (Dafny string-literal spelling) |

## Left out

- Logging through SLF4J (`StringUtils.java:50, 92, 99, 107`) is left out. It never affects the returned value.
- `isValidExtensionKey` is left out. Its implementation is not part of this model, and the tests that call it rely on test data that is not part of this model either.
- The TODO about coercing strings to UTF-8 (`StringUtils.java:74-75`) is left out. It is not implemented.
- Concurrent calls are not modelled. `EscapeField` is a pure function, so calls cannot interfere with each other.
- Fields are modelled as sequences of Unicode scalar values, while Java strings are UTF-16 code units. A field holding a lone surrogate cannot be expressed. The pattern characters are all in the Basic Multilingual Plane, so this does not change which fields are refused or escaped.
- The `InvalidField` exception class is modelled only as the `InvalidField` variant of `FieldResult`, carrying the exception's message. Its class hierarchy is not modelled.
- The Java regex engine is not modelled in general. Only the two fixed patterns are modelled, as predicates and functions over strings.
