# Universal Input Sanitizer: a verified model of its core

This project is a Dafny model of `src/universal_sanitizer/sanitizer.py`, the
classify-then-redact engine of the Universal Input Sanitizer. It models:

- **Shape recognisers.** These are the three regular expressions for email, phone and URL. Each is written as a
  scanner and proved equal to a declarative reading of its pattern (`patterns.dfy`).
- **Type detector.** `detect_type` is a fixed decision list over the stripped value: json, env, email, phone, url, text
  (`detect.dfy`).
- **Field sanitizers:**
  - `mask_email` with its `mask_part` (`email.dfy`);
  - `mask_phone`, as a loop proved against a position-by-position specification (`phone.dfy`);
  - `strip_url_query` (`url.dfy`);
  - `escape_sql` and `html_escape` (`escape.dfy`).
- **Orchestrator.** `sanitize_value` dispatches on the override kind or the detected kind (`sanitizer.dfy`). Two of its
  paths recurse back into it:
  - the JSON tree walk `recurse`;
  - the env `KEY=VALUE` rewrite, as a loop proved against a function.
- **Literal escapers.** These are `_js_literal`, `_java_literal`, `_c_literal` and `_bash_literal`, the
  language table, and `language_escape` (`literals.dfy`). Each double-quoted escaper is proved to be read back by a
  simplified C-like literal reader: the literal closes at its first unescaped '"', and the reader knows only the
  escapes the escapers emit. The bash escaper is proved to be read back by a POSIX shell's quoting rules.
- **Worked examples** on concrete inputs (`scenarios.dfy`). They cover every assertion of the repository's unit tests
  in `tests/test_sanitizer.py`, and two behaviours that are easy to get wrong. The test that the printed JSON no longer
  holds the address is shown on the sanitized tree; the printed text is `json.dumps` of that tree, and `json.dumps`
  is a parameter of the model.

Supporting modules:

- `str.dfy` holds the string primitives: Python's `strip`, `split`, `join`, `splitlines`, `replace` and `lower`.
- `options.dfy` holds `Option`.
- `json.dfy` holds the JSON value type. It also holds the parser/printer pair that comes from Python's library.

Where the code and its own documentation disagree, the model follows the code:

- The docstring of `mask_email` (sanitizer.py:23) says `'alice@example.com' -> 'a***e@e*****m'`. The code masks every
  domain label on its own and keeps the dots, which gives `'a***e@e*****e.c*m'` (`Scenarios.AliceEmail`).
- `"http://x?a=b"` holds an '=' on a single line, so `detect_type` reports it as env before the URL rule is
  reached. Auto-sanitizing it therefore does not strip the query (`Detect.OneLineSettingIsEnv`,
  `Scenarios.UrlWithQueryIsEnv`).
- `_js_literal` escapes only the backslash and the double quote. A line break in the text stays raw inside the
  JavaScript literal (`Literals.JsLiteralKeepsNewline`).
- The C-family escaper leaves '\r' raw (`Literals.CLiteralNewlines`).
- JSON that fails to parse is reported as "text" but is only HTML-escaped. Its single quotes are not doubled as the
  text branch would double them (`Sanitizer.JsonFallbackSkipsSql`).

## Model

All source paths are relative to the repository root.

| member | source | states |
|---|---|---|
| Patterns.MatchAtMeaning | src/universal_sanitizer/sanitizer.py:13 | At one position the email scanner finds a match exactly when the pattern `[^@\s]+@[^\s@]+\.[^\s@]+` can match there. Its '@' is the only one any match there can use, and its end is the furthest, as greedy matching gives. |
| Patterns.FindEmailMeaning | src/universal_sanitizer/sanitizer.py:13-15 | `_EMAIL_RE.search`: the match found is one the pattern admits, and no earlier position admits any. There is no match exactly when the pattern matches nowhere. |
| Patterns.IsEmailFullMeaning | src/universal_sanitizer/sanitizer.py:115 | `_EMAIL_RE.fullmatch(v)` holds exactly when the pattern can match the whole of `v`. |
| Patterns.IsPhoneFullMeaning | src/universal_sanitizer/sanitizer.py:117 | The phone full-match test, which consumes a leading '+', holds exactly when `\+?\d[\d\-() ]{6,}\d` matches the whole value with either choice of the optional '+'. |
| Patterns.SchemeLengthMeaning | src/universal_sanitizer/sanitizer.py:15 | The scheme scanner reports 8 exactly when "https://" is present, 7 exactly when "http://" is, and 0 when neither is. |
| Patterns.IsUrlFullMeaning | src/universal_sanitizer/sanitizer.py:119 | `_URL_RE.fullmatch(v)` holds exactly when `v` is "http://" or "https://" followed by one or more non-whitespace characters. |
| EmailMasking.MaskPart | src/universal_sanitizer/sanitizer.py:31-38 | "" gives "". One character `c` gives `c*`. Two characters give the first one and `*`. Three or more keep the length, the first and the last character, and star everything between. |
| EmailMasking.MaskDomainLabels | src/universal_sanitizer/sanitizer.py:40 | The masked domain splits on '.' into exactly the masked labels of the domain: masking neither adds nor removes a label. |
| EmailMasking.MaskDomainNoAt | src/universal_sanitizer/sanitizer.py:40 | Masking a domain free of '@' introduces no '@'. |
| EmailMasking.MaskEmailNoMatch | src/universal_sanitizer/sanitizer.py:25-27 | Text in which the email pattern matches nowhere is returned unchanged. |
| EmailMasking.MatchHalves | src/universal_sanitizer/sanitizer.py:28-29 | The local group of a match is non-empty, and neither group holds an '@'. |
| EmailMasking.MaskEmailShape | src/universal_sanitizer/sanitizer.py:25-41 | With a match, the result is the masked local part, '@' and the masked domain of the leftmost match, and the text around the match is dropped. It holds exactly one '@' and starts with the local part's first character. |
| PhoneMasking.PhoneMaskKeepsLayout | src/universal_sanitizer/sanitizer.py:49-62 | With at least four digits the result keeps the input's length and every non-digit at its position. The digits left in it are exactly the input's last two. |
| PhoneMasking.PhoneMaskShort | src/universal_sanitizer/sanitizer.py:49-51 | With fewer than four digits the result is one '*' per digit and nothing else. |
| PhoneMasking.PhoneMaskHides | src/universal_sanitizer/sanitizer.py:49-62 | The result holds a '*' exactly when the input holds a digit. This covers the unit test at tests/test_sanitizer.py:10-11, which expects a '*' in the mask of "+1 (555) 123-4567". |
| PhoneMasking.MaskStep | src/universal_sanitizer/sanitizer.py:57-61 | One step of the walk: a digit takes the next masked digit and advances the iterator; any other character is kept and does not advance it. |
| PhoneMasking.MaskPhone | src/universal_sanitizer/sanitizer.py:44-62 | The loop that walks the value with the iterator over the masked digits returns exactly the position-by-position mask. |
| UrlStripping.QueryAtMeaning | src/universal_sanitizer/sanitizer.py:69 | At one position the scanner finds a '?' exactly when `https?://[^\s?]+\?` can match there, and that '?' is the only one such a match can use. |
| UrlStripping.SearchQueryLeftmost | src/universal_sanitizer/sanitizer.py:69 | The search returns the first position with a match, and reports none only when no position has one. |
| UrlStripping.StripLineMeaning | src/universal_sanitizer/sanitizer.py:69 | A line where the pattern matches nowhere is kept. Otherwise the line is cut at the '?' of the leftmost match, and the rest of the line goes with it. |
| UrlStripping.StripUrlQueryLines | src/universal_sanitizer/sanitizer.py:65-69 | The result's '\n'-separated lines are the input's lines, each stripped on its own. |
| UrlStripping.StripUrlQueryOneLine | src/universal_sanitizer/sanitizer.py:69 | Text without a '\n' is substituted as one line. |
| UrlStripping.StripUrlQueryCut | src/universal_sanitizer/sanitizer.py:69 | A one-line text on which the pattern matches at the start is cut at that match's '?'. |
| UrlStripping.StripUrlQueryNoQuery | src/universal_sanitizer/sanitizer.py:65-69 | Text without a '?' is returned unchanged. |
| Escape.EscapeSqlRoundTrip | src/universal_sanitizer/sanitizer.py:72-77 | Collapsing doubled quotes gives back the input. The result is longer by one character per quote and holds twice as many quotes. |
| Escape.HtmlStepsAreEntities | src/universal_sanitizer/sanitizer.py:84-90 | The entities written by earlier replacements hold none of the characters later ones replace, because '&' comes first. The chain sends each character to its entity. |
| Escape.HtmlEscapeIsMap | src/universal_sanitizer/sanitizer.py:80-90 | The chain of five `str.replace` calls equals the per-character entity map. |
| Escape.HtmlEscapeSafe | src/universal_sanitizer/sanitizer.py:80-90 | No '<', '>', '"' or '\'' is left in the output. |
| Escape.HtmlEscapeRoundTrip | src/universal_sanitizer/sanitizer.py:80-90 | Decoding the five entities gives back the input. |
| Escape.HtmlEscapeGrows | src/universal_sanitizer/sanitizer.py:80-90 | The output is never shorter than the input, and is strictly longer when the input holds one of the five special characters. |
| Escape.HtmlEscapeNotIdempotent | src/universal_sanitizer/sanitizer.py:80-90 | A second pass changes any text that holds a special character. |
| Escape.SqlEscapeShows | src/universal_sanitizer/sanitizer.py:224 | SQL escaping before HTML escaping changes the result exactly when the text holds a single quote. |
| Literals.BareQuoteRejected | src/universal_sanitizer/sanitizer.py:129-138 | The literal reader closes a literal at its first unescaped '"', so a literal with a bare '"' inside does not read back at all. |
| Literals.QuoteMustBeEscaped | src/universal_sanitizer/sanitizer.py:129-138 | Any replacement chain that the reader can undo must turn '"' into `\"`. |
| Literals.QuotedReadBack | src/universal_sanitizer/sanitizer.py:129-138 | A double-quoted literal built from a readable chain is closed by its last character and reads back as the text. |
| Literals.JsLiteralReadBack | src/universal_sanitizer/sanitizer.py:129-130 | The JavaScript literal starts and ends with '"', and reading its `\\` and `\"` escapes gives back the text. |
| Literals.JavaLiteralReadBack | src/universal_sanitizer/sanitizer.py:132-134 | The Java literal starts and ends with '"', and reading its `\\`, `\"`, `\n` and `\r` escapes gives back the text. |
| Literals.CLiteralReadBack | src/universal_sanitizer/sanitizer.py:136-138 | The C-family literal starts and ends with '"', and reading its `\\`, `\"` and `\n` escapes gives back the text. |
| Literals.JsLiteralKeepsNewline | src/universal_sanitizer/sanitizer.py:129-130 | A raw '\n' or '\r' is in the JavaScript literal exactly when it is in the text. |
| Literals.JavaLiteralOneLine | src/universal_sanitizer/sanitizer.py:132-134 | A Java literal holds no raw '\n' or '\r'. |
| Literals.CLiteralNewlines | src/universal_sanitizer/sanitizer.py:136-138 | A C-family literal holds no raw '\n', but holds a raw '\r' exactly when the text does. |
| Literals.BashLiteralUniform | src/universal_sanitizer/sanitizer.py:140-144 | Both branches of `_bash_literal` agree: the result is always `'` + the text with each `'` made `'\''` + `'`. |
| Literals.UnclosedQuoteRejected | src/universal_sanitizer/sanitizer.py:140-144 | The shell reader refuses a word whose single quote is never closed. |
| Literals.BashLiteralReadBack | src/universal_sanitizer/sanitizer.py:140-144 | A POSIX shell reads the bash literal as exactly the text, its last quote closing the last run. |
| Literals.EscaperNames | src/universal_sanitizer/sanitizer.py:146-160 | Which names select which escaper, in any letter case: "python" selects `repr`; "javascript" and "js" select the JavaScript escaper; "java" selects the Java escaper; go, c, csharp, cs, php, ruby, rust and swift select the C-family escaper; "bash" selects the bash escaper. |
| Literals.TableKeysLowerCase | src/universal_sanitizer/sanitizer.py:146-160 | Every key of the table is lower case, so every spelling of a key reaches it. |
| Literals.UnknownLanguageIsPython | src/universal_sanitizer/sanitizer.py:162-170 | A name outside the table gives the same result as "python", which is `repr`. |
| Literals.LanguageEscapeIgnoresCase | src/universal_sanitizer/sanitizer.py:167 | Names that lower-case alike give the same literal. |
| Literals.LanguageEscapeByKey | src/universal_sanitizer/sanitizer.py:162-170 | A name that lower-cases to a key is escaped by that key's escaper. |
| Detect.DetectTypeOfStripped | src/universal_sanitizer/sanitizer.py:98 | The kind depends only on the stripped value. |
| Detect.DetectTypeMeaning | src/universal_sanitizer/sanitizer.py:93-123 | Each kind is reported exactly when its rule holds and no earlier rule does, in the order json, env, email, phone, url. The shape rules are read as their regular expressions. |
| Detect.DetectTypeText | src/universal_sanitizer/sanitizer.py:122-123 | "text" is reported exactly when no rule holds. |
| Detect.DetectTypeNoParser | src/universal_sanitizer/sanitizer.py:101-106 | The parser is consulted only for bracketed values: any other value gets the same kind whatever the parser says. |
| Detect.OneLineSettingIsEnv | src/universal_sanitizer/sanitizer.py:108-112 | A single stripped line that holds an '=' and is neither bracketed nor a '#' comment is env, even when it is a URL with a query. |
| Sanitizer.OverrideKind | src/universal_sanitizer/sanitizer.py:179-187 | `kind or detect_type(value)`: no kind and the empty kind leave the choice to detection. A kind's own name selects that kind. Any other name ends in the text branch. |
| Sanitizer.OverrideKindName | src/universal_sanitizer/sanitizer.py:177 | Each of the six names selects its own kind. |
| Sanitizer.SanitizeValue | src/universal_sanitizer/sanitizer.py:173-225 | `sanitize_value` as written, with the phone and env branches run by their loops, returns exactly the reported kind and text of the dispatch function `Sanitize`. |
| Sanitizer.SanitizeReportsKind | src/universal_sanitizer/sanitizer.py:179-206 | A given override decides the branch; without one the detected kind does. The reported kind is the branch's kind, except that JSON which fails to parse is reported as text. |
| Sanitizer.DetectedOverride | src/universal_sanitizer/sanitizer.py:199-200 | Passing the detected kind back as the override, as `recurse` and the env branch do, is the same as passing none. |
| Sanitizer.TextBranchSafe | src/universal_sanitizer/sanitizer.py:223-225 | The text branch reports text. Its output holds no '<', '>', '"' or '\''. Decoding the entities and then the doubled quotes gives back the input. |
| Sanitizer.JsonFallbackSkipsSql | src/universal_sanitizer/sanitizer.py:205-206 | JSON that fails to parse is reported as text and is only HTML-escaped. Its output differs from the text branch's exactly when it holds a single quote. |
| Sanitizer.SanitizeTree | src/universal_sanitizer/sanitizer.py:193-201 | `recurse` returns a tree of the same shape: the same keys in the same order, the same array lengths and the same non-string leaves. |
| Sanitizer.SanitizeOneMember | src/universal_sanitizer/sanitizer.py:194-200 | An object with one string member keeps its key, and the value is replaced by `sanitize_value(value, detect_type(value))[1]`. |
| Sanitizer.JsonBranchKeepsShape | src/universal_sanitizer/sanitizer.py:189-204 | Parsed JSON is reported as json and printed from a tree of the same shape as the parsed one. Every string leaf is sanitized by its own detected kind. |
| Sanitizer.EnvBranchLines | src/universal_sanitizer/sanitizer.py:208-221 | The env branch emits one line per input line. Blank lines, '#' lines and lines without '=' are kept verbatim. A setting keeps its key and first '=', and the rest is its stripped value, sanitized by its own detected kind. |
| Sanitizer.EnvLineMeets | src/universal_sanitizer/sanitizer.py:211-220 | One line of the env branch is rewritten as described for `EnvBranchLines`. |
| Sanitizer.RewriteEnvLine | src/universal_sanitizer/sanitizer.py:211-220 | The loop body for one line returns a line that is not a setting unchanged. For a setting it keeps the key and the first '=', and replaces the rest with the stripped value sanitized by its detected kind. |
| Sanitizer.EnvLineRewrittenUnique | src/universal_sanitizer/sanitizer.py:211-220 | Exactly one line meets that description for each input line: the env branch's own. |
| Sanitizer.SanitizeEnvBlock | src/universal_sanitizer/sanitizer.py:208-221 | The loop that appends each rewritten line and joins with '\n' returns exactly the env-branch function. |
| Str.SplitLinesJoin | src/universal_sanitizer/sanitizer.py:210-221 | Joining the lines with '\n' gives back the text less one final '\n'. This is what the env branch keeps of the line structure. |
| Str.StripIdempotent | src/universal_sanitizer/sanitizer.py:98 | Stripping twice is stripping once. |
| Str.StripEmpty | src/universal_sanitizer/sanitizer.py:110 | A line strips to "" (is blank) exactly when all of it is whitespace. |
| Scenarios.AliceEmail | src/universal_sanitizer/sanitizer.py:20-41 | `mask_email("alice@example.com")` is `"a***e@e*****e.c*m"`, not the `'a***e@e*****m'` of the docstring at line 23. |
| Scenarios.BobEmailKeepsAt | tests/test_sanitizer.py:7 | `mask_email("bob@example.com")` holds an '@'. |
| Scenarios.SamplePhoneHidden | tests/test_sanitizer.py:10-11 | `mask_phone("+1 (555) 123-4567")` holds a '*'. |
| Scenarios.TokenQueryStripped | tests/test_sanitizer.py:14 | `strip_url_query("https://example.com/path?token=abc")` is `"https://example.com/path"`. |
| Scenarios.UserEmailDetected | tests/test_sanitizer.py:17 | `detect_type("user@example.com")` is email. |
| Scenarios.ShortUrlDetected | tests/test_sanitizer.py:18 | `detect_type("http://a.b")` is url. |
| Scenarios.JsonEmailMasked | tests/test_sanitizer.py:21-23 | When the parser reads `{"email":"user@example.com"}` as that one-member object, `sanitize_value` with no kind detects json and reports json. It returns the printer's text for the tree whose leaf is `"u**r@"` followed by the masked domain, so the raw address is gone from the tree that is printed. |
| Scenarios.HiLiteralQuoted | tests/test_sanitizer.py:26-27 | `language_escape('He said "hi"', 'javascript')` starts and ends with '"' and reads back as the text. |
| Scenarios.UrlWithQueryIsEnv | src/universal_sanitizer/sanitizer.py:108-112 | `"http://x?a=b"` is detected as env. |

## Left out

- **src/universal_sanitizer/cli.py.** This is argument parsing, file and stdin reading, printing and the exit code.
  It is not part of this model.
- **src/universal_sanitizer/__init__.py.** It holds re-exports and two one-line wrappers. It is not part of this
  model.
- **`json.loads` and `json.dumps`.** They are Python's library. They enter as the two fields of a `JsonCodec`
  parameter.
  - Parsing failure, the `except Exception` at lines 105 and 205, is `loads` returning `None`.
  - The printer's output format (`ensure_ascii=False`, spacing, duplicate keys) is not modelled.
  - The sanitizer relies on one assumption about the parser, `WellBehaved`: a string leaf is shorter than the text it
    was parsed from. Python's parser has this property because a leaf sits between two quotes.
- **`repr`.** Used by `_python_literal` and the fallback of `language_escape`, it is a function parameter.
- **Character set.** The model works on ASCII:
  - `\s` and `str.strip` use Python's ASCII whitespace (space, 9-13 and 28-31);
  - `\d` and `isdigit` are '0'-'9';
  - `lower` folds 'A'-'Z'.
  - Non-ASCII whitespace, digits and case are out of scope. So is the crash in `mask_phone` when `isdigit` accepts a
    character that `\D` keeps.
- **`str.splitlines`.** In `detect_type` and the env branch it is modelled with '\n' as the only line break. The
  other separators ('\r', "\r\n", '\x0b', '\x0c', '\x1c'-'\x1e' and the Unicode ones) are out of scope.
- **The regular-expression engine.** The model has no general regex engine. Each pattern is a scanner proved
  equal to a declarative reading of its own pattern.
- **JSON numbers.** They are kept as their text, because the sanitizer passes them through untouched.
- Sanitizer.SanitizeTree: its contract states the shape of the result only. That each string leaf becomes
  `SanitizeDetected` of itself is the function's definition, and no separate property restates it.
- **The string-literal reader.** The read-back lemmas for the JavaScript, Java and C-family escapers use one
  simplified reader for all three languages. It knows only the escapes `\\`, `\"`, `\n` and `\r`. It does not reject
  a raw line break inside the literal, which a JavaScript string literal does not allow, so the JavaScript read-back
  does not show that the literal is valid JavaScript when the text holds a line break (see
  `Literals.JsLiteralKeepsNewline`). Language-specific escapes such as `\t`, `\u` or PHP's `$` interpolation are
  out of scope.
