// One interception rule of internal/bridge/route.go: what AddRule accepts, what it stores, and which
// requests a stored rule applies to.

module RouteRules {
  import opened GoSlices
  import opened GoText
  import opened Glob

  const MAX_FULFILL_BODY_BYTES := 1048576

  datatype Rule = Rule(
    pattern: string,
    action: string,
    body: seq<Byte>,
    contentType: string,
    status: int,
    resourceType: string,
    httpMethod: string,
    compiled: Option<seq<Re>>)

  datatype RuleError =
    | PatternRequired
    | InvalidAction
    | InvalidResourceType
    | InvalidMethod
    | BodyTooLarge
    | StatusOutOfRange
    | ContentTypeRefused

  datatype Checked = Accepted(rule: Rule) | Refused(error: RuleError)

  const FULFILL_CONTENT_TYPES: set<string> := {
    "application/json", "application/xml", "application/pdf", "application/octet-stream",
    "text/plain", "text/csv", "text/xml", "image/png", "image/jpeg", "image/gif", "image/webp",
    "video/mp4", "video/webm", "audio/mpeg", "audio/ogg", "audio/wav"}

  const RESOURCE_TYPES: set<string> := {
    "document", "stylesheet", "image", "media", "font", "script", "texttrack", "xhr", "fetch",
    "prefetch", "eventsource", "websocket", "manifest", "signedexchange", "ping",
    "cspviolationreport", "preflight", "other"}

  const HTTP_METHODS: set<string> := {
    "GET", "POST", "PUT", "PATCH", "DELETE", "HEAD", "OPTIONS", "CONNECT", "TRACE"}

  predicate HasHeaderControlChar(s: string) {
    '\r' in s || '\n' in s || '\0' in s
  }

  predicate FulfillContentTypeAllowed(ct: string) {
    ct == "" || (!HasHeaderControlChar(ct) && TrimSpace(ToLower(Before(ct, ';'))) in FULFILL_CONTENT_TYPES)
  }

  predicate ResourceTypeValid(rt: string) {
    rt == "" || ToLower(rt) in RESOURCE_TYPES
  }

  function NormalizeHTTPMethod(m: string): Option<string> {
    var upper := ToUpper(TrimSpace(m));
    if upper in HTTP_METHODS then Some(upper) else None
  }

  predicate KnownAction(a: string) {
    a == "continue" || a == "abort" || a == "fulfill"
  }

  // The checks and defaults AddRule applies before it takes the lock, in the code's order.
  function Check(rule: Rule): Checked {
    var action := if rule.action == "" then "continue" else rule.action;
    if rule.pattern == "" then Refused(PatternRequired)
    else if !KnownAction(action) then Refused(InvalidAction)
    else if !ResourceTypeValid(rule.resourceType) then Refused(InvalidResourceType)
    else if rule.httpMethod != "" && NormalizeHTTPMethod(rule.httpMethod).None? then Refused(InvalidMethod)
    else if |rule.body| > MAX_FULFILL_BODY_BYTES then Refused(BodyTooLarge)
    else if rule.status != 0 && (rule.status < 100 || rule.status > 599) then Refused(StatusOutOfRange)
    else if rule.contentType != "" && !FulfillContentTypeAllowed(rule.contentType) then Refused(ContentTypeRefused)
    else Accepted(rule.(
      action := action,
      httpMethod := if rule.httpMethod == "" then "" else NormalizeHTTPMethod(rule.httpMethod).value,
      status := if action == "fulfill" && rule.status == 0 then 200 else rule.status,
      contentType := if action == "fulfill" && rule.contentType == "" then "application/json" else rule.contentType,
      compiled := CompileRulePattern(rule.pattern)))
  }

  // What every stored rule satisfies.
  predicate Validated(r: Rule) {
    && r.pattern != ""
    && KnownAction(r.action)
    && ResourceTypeValid(r.resourceType)
    && (r.httpMethod == "" || r.httpMethod in HTTP_METHODS)
    && |r.body| <= MAX_FULFILL_BODY_BYTES
    && (r.status == 0 || 100 <= r.status <= 599)
    && FulfillContentTypeAllowed(r.contentType)
    && (r.action == "fulfill" ==> r.status != 0 && r.contentType != "")
    && r.compiled == CompileRulePattern(r.pattern)
  }

  lemma FixedByUpperAndTrim(m: string)
    requires forall i :: 0 <= i < |m| ==> UpperChar(m[i]) == m[i] && !IsSpace(m[i])
    ensures ToUpper(TrimSpace(m)) == m
  {
  }

  lemma MethodsAreUpperCase(m: string)
    requires m in HTTP_METHODS
    ensures NormalizeHTTPMethod(m) == Some(m)
  {
    assert forall i :: 0 <= i < |m| ==> 'A' <= m[i] <= 'Z';
    FixedByUpperAndTrim(m);
  }

  lemma FixedByLowerAndTrim(s: string)
    requires forall i :: 0 <= i < |s| ==> LowerChar(s[i]) == s[i] && !IsSpace(s[i])
    ensures TrimSpace(ToLower(s)) == s
  {
  }

  // Lower-case letters and slashes: untouched by lower-casing, trimming and cutting at a semicolon.
  predicate Plain(s: string) {
    forall i :: 0 <= i < |s| ==> 'a' <= s[i] <= 'z' || s[i] == '/'
  }

  lemma PlainContentType(ct: string)
    requires Plain(ct)
    ensures TrimSpace(ToLower(Before(ct, ';'))) == ct && !HasHeaderControlChar(ct)
  {
    BeforeWithoutSeparator(ct, ';');
    FixedByLowerAndTrim(ct);
  }

  lemma JSONAllowed()
    ensures FulfillContentTypeAllowed("application/json")
  {
    assert Plain("application/json");
    PlainContentType("application/json");
  }

  lemma {:induction false} BeforeWithoutSeparator(s: string, sep: char)
    requires sep !in s
    ensures Before(s, sep) == s
  {
    if s != "" {
      BeforeWithoutSeparator(s[1..], sep);
    }
  }

  lemma NothingAllowed()
    ensures FulfillContentTypeAllowed("")
  {
  }

  lemma NormalizedMethodIsKnown(m: string)
    ensures NormalizeHTTPMethod(m).Some? ==> NormalizeHTTPMethod(m).value in HTTP_METHODS
  {
  }

  lemma AcceptedIsValidated(rule: Rule)
    requires Check(rule).Accepted?
    ensures Validated(Check(rule).rule) && Check(rule).rule.pattern == rule.pattern
  {
    hide KnownAction, ResourceTypeValid, CompileRulePattern, NormalizeHTTPMethod, FulfillContentTypeAllowed;
    JSONAllowed();
    NothingAllowed();
    NormalizedMethodIsKnown(rule.httpMethod);
  }

  lemma ValidatedIsAccepted(rule: Rule)
    requires Validated(rule)
    ensures Check(rule) == Accepted(rule)
  {
    if rule.httpMethod != "" {
      MethodsAreUpperCase(rule.httpMethod);
    }
  }

  // Acceptance yields a validated rule for the same pattern, and the validated rules are exactly the
  // ones the checks leave as they are: storing what was stored changes nothing.
  lemma CheckValidates(rule: Rule)
    ensures Check(rule).Accepted? ==> Validated(Check(rule).rule) && Check(rule).rule.pattern == rule.pattern
    ensures Validated(rule) <==> Check(rule) == Accepted(rule)
  {
    var checked := Check(rule);
    if checked.Accepted? {
      AcceptedIsValidated(rule);
    }
    if Validated(rule) {
      ValidatedIsAccepted(rule);
    }
  }

  // What may be in the fields of a rule.
  predicate ActionAllowed(action: string) {
    action in {"", "continue", "abort", "fulfill"}
  }

  ghost predicate ContentTypeListed(ct: string) {
    ct == "" || ('\r' !in ct && '\n' !in ct && '\0' !in ct && exists i :: MediaTypeEnds(ct, i))
  }

  // The content type up to here, before its parameters, is one of the listed media types.
  predicate MediaTypeEnds(ct: string, i: int) {
    && 0 <= i <= |ct| && ';' !in ct[..i] && (i == |ct| || ct[i] == ';')
    && TrimSpace(ToLower(ct[..i])) in FULFILL_CONTENT_TYPES
  }

  lemma {:induction false} BeforeEndsThere(s: string, sep: char, i: nat)
    requires i <= |s| && sep !in s[..i] && (i == |s| || s[i] == sep)
    ensures Before(s, sep) == s[..i]
  {
    if i > 0 {
      assert s[0] in s[..i] && s[1..][..i - 1] == s[..i][1..];
      BeforeEndsThere(s[1..], sep, i - 1);
      assert s[..i] == [s[0]] + s[1..][..i - 1];
    }
  }

  lemma ListedIsAllowed(ct: string)
    ensures FulfillContentTypeAllowed(ct) <==> ContentTypeListed(ct)
  {
    var media := Before(ct, ';');
    assert media == ct[..|media|];
    if FulfillContentTypeAllowed(ct) && ct != "" {
      assert MediaTypeEnds(ct, |media|);
    }
    if i :| MediaTypeEnds(ct, i) {
      BeforeEndsThere(ct, ';', i);
    }
  }

  predicate StatusAllowed(status: int) {
    status == 0 || 100 <= status <= 599
  }

  // The first unfit field, in this order, is the reason of a refusal; a rule without one is stored with
  // the method in upper case, and with the defaults of its action where nothing was given.
  lemma CheckMeaning(rule: Rule)
    ensures var typeFits := rule.resourceType == "" || ToLower(rule.resourceType) in RESOURCE_TYPES;
            var methodFits := rule.httpMethod == "" || ToUpper(TrimSpace(rule.httpMethod)) in HTTP_METHODS;
            match Check(rule)
            case Refused(PatternRequired) => rule.pattern == ""
            case Refused(InvalidAction) => rule.pattern != "" && !ActionAllowed(rule.action)
            case Refused(InvalidResourceType) => rule.pattern != "" && ActionAllowed(rule.action) && !typeFits
            case Refused(InvalidMethod) => rule.pattern != "" && ActionAllowed(rule.action) && typeFits && !methodFits
            case Refused(BodyTooLarge) =>
              rule.pattern != "" && ActionAllowed(rule.action) && typeFits && methodFits && |rule.body| > MAX_FULFILL_BODY_BYTES
            case Refused(StatusOutOfRange) =>
              && rule.pattern != "" && ActionAllowed(rule.action) && typeFits && methodFits && |rule.body| <= MAX_FULFILL_BODY_BYTES
              && !StatusAllowed(rule.status)
            case Refused(ContentTypeRefused) =>
              && rule.pattern != "" && ActionAllowed(rule.action) && typeFits && methodFits && |rule.body| <= MAX_FULFILL_BODY_BYTES
              && StatusAllowed(rule.status) && !ContentTypeListed(rule.contentType)
            case Accepted(r) =>
              && rule.pattern != "" && ActionAllowed(rule.action) && typeFits && methodFits && |rule.body| <= MAX_FULFILL_BODY_BYTES
              && StatusAllowed(rule.status) && ContentTypeListed(rule.contentType)
              && r.pattern == rule.pattern && r.body == rule.body && r.resourceType == rule.resourceType
              && r.action == (if rule.action == "" then "continue" else rule.action)
              && r.httpMethod == (if rule.httpMethod == "" then "" else ToUpper(TrimSpace(rule.httpMethod)))
              && r.status == (if r.action == "fulfill" && rule.status == 0 then 200 else rule.status)
              && r.contentType == (if r.action == "fulfill" && rule.contentType == "" then "application/json" else rule.contentType)
  {
    ActionsAreKnown(rule.action);
    ListedIsAllowed(rule.contentType);
    NothingAllowed();
    hide KnownAction, ActionAllowed, FulfillContentTypeAllowed, ContentTypeListed;
  }

  lemma ActionsAreKnown(action: string)
    ensures KnownAction(if action == "" then "continue" else action) <==> ActionAllowed(action)
  {
  }

  // The per-rule test of RouteManager.match.
  predicate Applies(r: Rule, url: string, resourceType: string, httpMethod: string) {
    && (r.resourceType == "" || EqualFold(r.resourceType, resourceType))
    && (if r.httpMethod != "" then EqualFold(r.httpMethod, httpMethod)
        else !(r.action == "fulfill" && httpMethod == "OPTIONS"))
    && RuleMatchesURL(r.pattern, r.compiled, url)
  }

  lemma StoredTypesFold(r: Rule, resourceType: string, httpMethod: string)
    requires Validated(r)
    ensures Ascii(resourceType) && r.resourceType != "" ==>
              (EqualFold(r.resourceType, resourceType)
               <==> ToLower(r.resourceType) == ToLower(resourceType) && '\U{130}' !in r.resourceType)
    ensures Ascii(httpMethod) && r.httpMethod != "" ==> (EqualFold(r.httpMethod, httpMethod) <==> r.httpMethod == ToUpper(httpMethod))
  {
    if r.resourceType != "" {
      TypesAreLetters(ToLower(r.resourceType));
      assert '\U{17F}' !in r.resourceType by {
        forall i | 0 <= i < |r.resourceType| ensures r.resourceType[i] != '\U{17F}' {
          assert ToLower(r.resourceType)[i] == LowerChar(r.resourceType[i]);
        }
      }
      if Ascii(resourceType) {
        FoldingIsLowerCase(r.resourceType, resourceType);
      }
    }
    if r.httpMethod != "" && Ascii(httpMethod) {
      MethodsAreUpper(r.httpMethod);
      FoldingIsLowerCase(r.httpMethod, httpMethod);
    }
  }

  lemma TypesAreLetters(t: string)
    requires t in RESOURCE_TYPES
    ensures forall i :: 0 <= i < |t| ==> 'a' <= t[i] <= 'z'
  {
  }

  lemma MethodsAreLetters(m: string)
    requires m in HTTP_METHODS
    ensures forall i :: 0 <= i < |m| ==> 'A' <= m[i] <= 'Z'
  {
  }

  lemma MethodsAreUpper(m: string)
    requires m in HTTP_METHODS
    ensures Ascii(m) && ToUpper(m) == m
  {
    MethodsAreLetters(m);
    hide *;
    UpperLettersStay(m);
  }

  lemma UpperLettersStay(m: string)
    requires forall i :: 0 <= i < |m| ==> 'A' <= m[i] <= 'Z'
    ensures Ascii(m) && ToUpper(m) == m
  {
  }

  // When a stored rule applies: the resource type and the method fit, where a fulfil rule without a method
  // leaves OPTIONS requests alone, and the URL fits the pattern, as a wildcard or a substring. A fulfil
  // rule therefore never answers a preflight request unless it names OPTIONS.
  lemma AppliesMeaning(r: Rule, url: string, resourceType: string, httpMethod: string)
    requires Validated(r)
    ensures Applies(r, url, resourceType, httpMethod)
      <==> && (r.resourceType == "" || EqualFold(r.resourceType, resourceType))
           && (r.httpMethod == "" || EqualFold(r.httpMethod, httpMethod))
           && (r.action == "fulfill" && httpMethod == "OPTIONS" ==> r.httpMethod == "OPTIONS")
           && (if '*' in r.pattern || '?' in r.pattern then LineMatch(r.pattern, url) else Contains(url, r.pattern))
    ensures Ascii(resourceType) && r.resourceType != "" ==>
              (EqualFold(r.resourceType, resourceType)
               <==> ToLower(r.resourceType) == ToLower(resourceType) && '\U{130}' !in r.resourceType)
    ensures Ascii(httpMethod) && r.httpMethod != "" ==> (EqualFold(r.httpMethod, httpMethod) <==> r.httpMethod == ToUpper(httpMethod))
  {
    StoredTypesFold(r, resourceType, httpMethod);
    RuleMeaning(r.pattern, url);
    if httpMethod == "OPTIONS" && r.httpMethod != "" && EqualFold(r.httpMethod, "OPTIONS") {
      FoldsToOptions(r.httpMethod);
    }
  }

  lemma FoldsToOptions(m: string)
    requires m in HTTP_METHODS && EqualFold(m, "OPTIONS")
    ensures m == "OPTIONS"
  {
    assert FoldChar(m[0]) == FoldChar("OPTIONS"[0]);
    assert m[0] == 'O';
  }
}
