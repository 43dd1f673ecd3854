/** Worked examples of the sanitizer's behaviour on concrete inputs. */
module Scenarios {
  import opened Str
  import opened Options
  import opened Patterns
  import opened EmailMasking
  import opened Sanitizer
  import opened JsonModel
  import opened Detect
  import opened UrlStripping
  import opened Literals
  import opened PhoneMasking

  /** `mask_email('alice@example.com')` is 'a***e@e*****e.c*m': the last
      letter of every label of three or more characters stays visible. */
  lemma {:induction false} AliceEmail()
    ensures MaskEmail("alice@example.com") == "a***e" + "@" + "e*****e.c*m"
  {
    var v := "alice@example.com";
    var m := EmailMatch(0, 5, 17);
    AliceFound();
    MaskEmailIsMatch(v, m);
    AliceHalves();
    AliceMasked();
  }

  lemma {:induction false} AliceHalves()
    ensures LocalPart("alice@example.com", EmailMatch(0, 5, 17)) == "alice"
    ensures DomainPart("alice@example.com", EmailMatch(0, 5, 17)) == "example.com"
  {
  }

  /** The masked form of the halves 'alice' and 'example.com' keeps the last
      letter of every label of three or more characters: 'a***e@e*****e.c*m'. */
  lemma {:induction false} AliceMasked()
    ensures MaskHalves("alice", "example.com") == "a***e" + "@" + "e*****e.c*m"
  {
    AliceLocal();
    ExampleComMasked();
  }

  lemma {:induction false} AliceLocal()
    ensures MaskPart("alice") == "a***e"
  {
  }

  /** The search finds 'alice' before the '@' and 'example.com' after it. */
  lemma {:induction false} AliceFound()
    ensures FindEmail("alice@example.com") == Some(EmailMatch(0, 5, 17))
  {
    var v := "alice@example.com";
    AliceRuns();
    assert v[6..17][7] == '.';
    assert MatchAt(v, 0) == Some(EmailMatch(0, 5, 17));
  }

  /** The two runs of email characters: 'alice' and 'example.com'. */
  lemma {:induction false} AliceRuns()
    ensures RunEnd("alice@example.com", 0) == 5
    ensures RunEnd("alice@example.com", 6) == 17
  {
    LocalRun();
    DomainRun(11);
  }

  lemma {:induction false} LocalRun()
    ensures RunEnd("alice@example.com", 0) == 5
  {
    var v := "alice@example.com";
    assert RunEnd(v, 5) == 5;
    assert RunEnd(v, 4) == 5;
    assert RunEnd(v, 3) == 5;
    assert RunEnd(v, 2) == 5;
    assert RunEnd(v, 1) == 5;
  }

  /** From any position of 'example.com' the run goes to the end. */
  lemma {:induction false} DomainRun(k: nat)
    requires k <= 11
    ensures RunEnd("alice@example.com", 17 - k) == 17
  {
    if k > 0 {
      DomainRun(k - 1);
      var v := "alice@example.com";
      assert IsEmailChar(v[17 - k]);
    }
  }

  /** 'example.com' is split into 'example' and 'com', each masked. */
  lemma {:induction false} ExampleComMasked()
    ensures MaskDomain("example.com") == "e*****e.c*m"
  {
    ExampleComLabels();
    ExampleComMaskedLabels();
    ExampleComJoined();
  }

  lemma {:induction false} ExampleComLabels()
    ensures Split("example.com", '.') == ["example", "com"]
  {
    var labels := ["example", "com"];
    assert Join(labels, ".") == "example.com";
    assert '.' !in labels[0] && '.' !in labels[1];
    SplitJoin(labels, '.');
  }

  lemma {:induction false} ExampleComMaskedLabels()
    ensures MaskLabels(["example", "com"]) == ["e*****e", "c*m"]
  {
    assert MaskPart("example") == "e*****e";
    assert MaskPart("com") == "c*m";
  }

  lemma {:induction false} ExampleComJoined()
    ensures Join(["e*****e", "c*m"], ".") == "e*****e.c*m"
  {
  }

  /** "http://x?a=b" is reported as env, never as url. */
  lemma {:induction false} UrlWithQueryIsEnv(lib: JsonCodec)
    ensures DetectType(lib, "http://x?a=b") == Env
  {
    var v := "http://x?a=b";
    StripKeeps(v);
    assert v[10] == '=';
    OneLineSettingIsEnv(lib, v);
  }

  /** `strip_url_query("https://example.com/path?token=abc")` is
      "https://example.com/path": the query goes, the path stays. */
  lemma {:induction false} TokenQueryStripped()
    ensures StripUrlQuery("https://example.com/path?token=abc") == "https://example.com/path"
  {
    var v := "https://example.com/path?token=abc";
    TokenQueryAt();
    StripUrlQueryCut(v, 24);
    TokenPrefix();
  }

  lemma {:induction false} TokenPrefix()
    ensures "https://example.com/path?token=abc"[..24] == "https://example.com/path"
  {
  }

  /** The match at the start of the line uses the '?' at index 24. */
  lemma {:induction false} TokenQueryAt()
    ensures QueryAt("https://example.com/path?token=abc", 0) == Some(24)
  {
    var v := "https://example.com/path?token=abc";
    assert HasScheme(v, 0, true);
    PathEndAt(v, 8, 24);
  }

  /** `detect_type("user@example.com")` is email. */
  lemma {:induction false} UserEmailDetected(lib: JsonCodec)
    ensures DetectType(lib, "user@example.com") == Email
  {
    var v := "user@example.com";
    StripKeeps(v);
    assert '=' !in v;
    UserEmailFull();
    assert IsEmailFull(v);
  }

  /** The whole of "user@example.com" is one match of the email pattern. */
  lemma {:induction false} UserEmailFull()
    ensures MatchAt("user@example.com", 0) == Some(EmailMatch(0, 4, 16))
  {
    var v := "user@example.com";
    RunEndAt(v, 0, 4);
    RunEndAt(v, 5, 16);
    assert v[12] == '.';
    assert v[5..16][7] == '.';
    assert MatchAt(v, 0) == Some(EmailMatch(0, 4, 16));
  }

  /** `mask_email("bob@example.com")` still holds an '@'. */
  lemma {:induction false} BobEmailKeepsAt()
    ensures '@' in MaskEmail("bob@example.com")
  {
    var v := "bob@example.com";
    BobEmailFull();
    MaskEmailShape(v, EmailMatch(0, 3, 15));
  }

  /** The whole of "bob@example.com" is one match of the email pattern. */
  lemma {:induction false} BobEmailFull()
    ensures FindEmail("bob@example.com") == Some(EmailMatch(0, 3, 15))
  {
    var v := "bob@example.com";
    RunEndAt(v, 0, 3);
    RunEndAt(v, 4, 15);
    assert v[11] == '.';
    assert v[4..15][7] == '.';
    assert MatchAt(v, 0) == Some(EmailMatch(0, 3, 15));
  }

  /** `mask_phone("+1 (555) 123-4567")` holds a '*'. */
  lemma {:induction false} SamplePhoneHidden()
    ensures '*' in PhoneMask("+1 (555) 123-4567")
  {
    var v := "+1 (555) 123-4567";
    assert IsDigit(v[1]);
    DigitHidden(v, 1);
  }

  /** Any text with a digit masks to something with a '*'. */
  lemma {:induction false} DigitHidden(v: string, i: nat)
    requires i < |v| && IsDigit(v[i])
    ensures '*' in PhoneMask(v)
  {
    DigitIndex(v, i);
    PhoneMaskHides(v);
  }

  /** `language_escape('He said "hi"', 'javascript')` is a JavaScript
      literal: it starts and ends with '"' and reads back as the text. */
  lemma {:induction false} HiLiteralQuoted(repr: string -> string)
    ensures var lit := LanguageEscape("He said \"hi\"", "javascript", repr);
      && |lit| >= 2 && lit[0] == '"' && lit[|lit| - 1] == '"'
      && ReadQuoted(lit) == Some("He said \"hi\"")
  {
    JavaScriptNameIsJs("He said \"hi\"", repr);
    JsLiteralReadBack("He said \"hi\"");
  }

  /** The name "javascript" selects the JavaScript escaper. */
  lemma {:induction false} JavaScriptNameIsJs(s: string, repr: string -> string)
    ensures LanguageEscape(s, "javascript", repr) == JsLiteral(s)
  {
    TableKeysLowerCase();
    assert "javascript" in LanguageEscapers;
    assert EscaperFor("javascript") == Some(JsEscaper);
  }

  /** `detect_type("http://a.b")` is url. */
  lemma {:induction false} ShortUrlDetected(lib: JsonCodec)
    ensures DetectType(lib, "http://a.b") == Url
  {
    var v := "http://a.b";
    StripKeeps(v);
    assert '=' !in v;
    ShortUrlShapes();
  }

  /** "http://a.b" is not an email or a phone number, and is a URL. */
  lemma {:induction false} ShortUrlShapes()
    ensures !IsEmailFull("http://a.b") && !IsPhoneFull("http://a.b") && IsUrlFull("http://a.b")
  {
    var v := "http://a.b";
    RunEndAt(v, 0, 10);
    assert MatchAt(v, 0) == None;
    assert !IsPhoneFull(v);
    assert HasScheme(v, 0, false) && !HasScheme(v, 0, true);
  }

  /** The JSON text `{"email":"user@example.com"}`, once parsed, is reported
      as json, and its one leaf comes out masked as an email: the raw
      address is gone. */
  lemma {:induction false} JsonEmailMasked(lib: JsonCodec)
    requires WellBehaved(lib)
    requires lib.loads("{\"email\":\"user@example.com\"}") == Some(JObject([("email", JString("user@example.com"))]))
    ensures var text := "{\"email\":\"user@example.com\"}";
      var t := JObject([("email", JString("user@example.com"))]);
      && LeavesShorter(t, |text|)
      && DetectType(lib, text) == Json
      && SanitizeTree(lib, t, |text|) == JObject([("email", JString("u**r" + "@" + MaskDomain("example.com")))])
      && Sanitize(lib, text, None)
         == (Json, lib.dumps(JObject([("email", JString("u**r" + "@" + MaskDomain("example.com")))])))
  {
    var text := "{\"email\":\"user@example.com\"}";
    var t := JObject([("email", JString("user@example.com"))]);
    StripKeeps(text);
    assert Bracketed(text);
    ParsedIsJson(lib, text, t);
    SanitizeOneMember(lib, "email", "user@example.com", |text|);
    UserEmailSanitized(lib);
  }

  /** Bracketed text with no surrounding whitespace that the parser reads is
      detected as json, and `sanitize_value` with no kind prints its walked
      tree. */
  lemma {:induction false} ParsedIsJson(lib: JsonCodec, text: string, t: JsonValue)
    requires WellBehaved(lib) && lib.loads(text) == Some(t)
    requires Strip(text) == text && Bracketed(text)
    ensures LeavesShorter(t, |text|)
    ensures DetectType(lib, text) == Json
    ensures Sanitize(lib, text, None) == (Json, lib.dumps(SanitizeTree(lib, t, |text|)))
  {
    JsonBranchKeepsShape(lib, text, t);
  }

  /** The leaf "user@example.com" is sanitized as an email: 'u**r' and
      the masked domain. */
  lemma {:induction false} UserEmailSanitized(lib: JsonCodec)
    requires WellBehaved(lib)
    ensures SanitizeDetected(lib, "user@example.com") == "u**r" + "@" + MaskDomain("example.com")
  {
    UserEmailDetected(lib);
    UserEmailMasked();
  }

  lemma {:induction false} UserEmailMasked()
    ensures MaskEmail("user@example.com") == "u**r" + "@" + MaskDomain("example.com")
  {
    var v := "user@example.com";
    var m := EmailMatch(0, 4, 16);
    UserFound();
    MaskEmailIsMatch(v, m);
    UserHalves();
    UserMaskedHalves();
  }

  lemma {:induction false} UserFound()
    ensures FindEmail("user@example.com") == Some(EmailMatch(0, 4, 16))
  {
    UserEmailFull();
  }

  lemma {:induction false} UserMaskedHalves()
    ensures MaskHalves("user", "example.com") == "u**r" + "@" + MaskDomain("example.com")
  {
    assert MaskPart("user") == "u**r";
  }

  lemma {:induction false} UserHalves()
    ensures LocalPart("user@example.com", EmailMatch(0, 4, 16)) == "user"
    ensures DomainPart("user@example.com", EmailMatch(0, 4, 16)) == "example.com"
  {
  }
}
