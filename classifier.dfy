/**
  parse_url_from_message (services.py:23-93): classifies one chat message as a
  bare `/start`, a website (with an optional question after it) or a plain
  question. The Python dictionaries it returns are the three constructors of
  Parsed.
 */
module Classifier {
  import opened Options
  import opened PyStrings
  import opened UrlPattern

  /**
    `{"type": "start_empty", ...}`, `{"type": "site", "site": ..., ["query": ...]}`
    and `{"type": "query", "query": ...}`, each with its `dialog_id`.
   */
  datatype Parsed =
    | StartEmpty(dialogId: int)
    | Site(site: string, query: Option<string>, dialogId: int)
    | QueryOnly(text: string, dialogId: int)

  const Start := "/start"

  /** `str.lower` on ASCII letters; other characters are left alone. */
  function AsciiLower(c: char): char {
    if 'A' <= c <= 'Z' then (c as int + 32) as char else c
  }

  /**
    `t.lower().startswith("/start")`. No character outside ASCII lower-cases
    to a character of "/start", so comparing the first six characters one by
    one is exact.
   */
  predicate IsStartCommand(t: string): (b: bool)
    ensures b <==>
      && |t| >= 6 && t[0] == '/'
      && (t[1] == 's' || t[1] == 'S') && (t[2] == 't' || t[2] == 'T')
      && (t[3] == 'a' || t[3] == 'A') && (t[4] == 'r' || t[4] == 'R')
      && (t[5] == 't' || t[5] == 'T')
  {
    |t| >= |Start| && forall i :: 0 <= i < |Start| ==> AsciiLower(t[i]) == Start[i]
  }

  /**
    The text the matcher goes on with once `/start` is handled (services.py:31-35):
    the stripped remainder after the command, or the message itself; None when
    nothing but whitespace follows the command.
   */
  function AfterStart(original: string): (r: Option<string>)
    ensures r.None? <==> IsStartCommand(original) && AllSpace(original[|Start|..])
    ensures r.Some? && IsStartCommand(original) ==> r.value != [] && r.value == Strip(original[|Start|..])
    ensures !IsStartCommand(original) ==> r == Some(original)
  {
    if IsStartCommand(original) then
      var rest := Strip(original[|Start|..]);
      StripEmptyIff(original[|Start|..]);
      if rest == [] then None else Some(rest)
    else Some(original)
  }

  /** The guard of the underscore repair (services.py:38). */
  predicate NeedsUnderscoreRepair(t: string): (b: bool)
    ensures b ==> !AllSpace(t)
  {
    UnderscoreIsNotSpace(t);
    '_' in t && '.' !in t
  }

  /** An underscore is not whitespace, so a text holding one has a first word. */
  lemma UnderscoreIsNotSpace(t: string)
    ensures '_' in t ==> !AllSpace(t)
  {
    if '_' in t {
      var i :| 0 <= i < |t| && t[i] == '_';
    }
  }

  /** What follows the first word of `t` in `t` itself. */
  function AfterFirstWord(t: string): (r: string)
    requires !AllSpace(t)
    ensures r == [] || IsSpace(r[0])
  {
    t[SpanSpace(t) + |FirstWord(t)|..]
  }

  /**
    The underscore repair as services.py:40-44 writes it: the remainder is
    sliced from index `len(domain_part)` of the whole text, which is only the
    end of the first word when the text does not start with whitespace.
   */
  function RepairUnderscoresAsWritten(t: string): (r: string)
    requires NeedsUnderscoreRepair(t)
    ensures |FirstWord(t)| <= |r|
    ensures r[..|FirstWord(t)|] == ReplaceChar(FirstWord(t), '_', '.')
    ensures |r| > |FirstWord(t)| ==> r[|FirstWord(t)|] == ' ' && r[|FirstWord(t)| + 1..] == Strip(t[|FirstWord(t)|..])
    ensures |r| == |FirstWord(t)| <==> AllSpace(t[|FirstWord(t)|..])
  {
    var w := FirstWord(t);
    var rest := Strip(t[|w|..]);
    StripEmptyIff(t[|w|..]);
    var tail := if rest != [] then " " + rest else "";
    assert (ReplaceChar(w, '_', '.') + tail)[..|w|] == ReplaceChar(w, '_', '.');
    assert (ReplaceChar(w, '_', '.') + tail)[|w|..] == tail;
    ReplaceChar(w, '_', '.') + tail
  }

  /**
    The underscore repair as intended: the first word with every `_` turned
    into `.`, then, when anything but whitespace follows that word, one space
    and the stripped remainder.
   */
  function RepairUnderscores(t: string): (r: string)
    requires NeedsUnderscoreRepair(t)
    ensures !AllSpace(t)
    ensures |FirstWord(t)| <= |r| <= |t|
    ensures r[..|FirstWord(t)|] == ReplaceChar(FirstWord(t), '_', '.')
    ensures '_' !in r[..|FirstWord(t)|]
    ensures |r| == |FirstWord(t)| || r[|FirstWord(t)|] == ' '
    ensures Strip(r[|FirstWord(t)|..]) == Strip(AfterFirstWord(t))
    ensures |r| > |FirstWord(t)| ==> r[|FirstWord(t)| + 1..] == Strip(AfterFirstWord(t))
    ensures |r| == |FirstWord(t)| <==> AllSpace(AfterFirstWord(t))
  {
    var w := FirstWord(t);
    var after := AfterFirstWord(t);
    var tail := PaddedRest(after);
    var r := ReplaceChar(w, '_', '.') + tail;
    assert r[..|w|] == ReplaceChar(w, '_', '.');
    assert r[|w|..] == tail;
    assert |r| > |w| ==> r[|w| + 1..] == tail[1..];
    r
  }

  /** One space and the stripped `after`, or nothing when `after` is all whitespace. */
  function PaddedRest(after: string): (tail: string)
    requires after == [] || IsSpace(after[0])
    ensures |tail| <= |after|
    ensures tail == [] || tail[0] == ' '
    ensures Strip(tail) == Strip(after)
    ensures tail != [] ==> tail[1..] == Strip(after)
    ensures tail == [] <==> AllSpace(after)
  {
    var rest := Strip(after);
    StripEmptyIff(after);
    if rest != [] then
      StripPadded(rest);
      assert SpanSpace(after) >= 1;
      " " + rest
    else ""
  }

  /**
    `re.match` with the lenient retry of services.py:56-69: only after a failed
    match, only for a text longer than three characters without a space
    character, and with `.com` appended only when the text has no dot.
   */
  function MatchWithRetry(t: string): (r: Option<UrlMatch>)
    ensures r.Some? ==> IsUrlToken(r.value.site)
  {
    match MatchUrl(t)
    case Some(m) => Some(m)
    case None =>
      if ' ' !in t && |t| > 3 then MatchUrl(if '.' !in t then t + ".com" else t) else None
  }

  /** The site as stored: `https://` in front unless it already names `http://` or `https://` (services.py:78-79). */
  function WithScheme(u: string): (s: string)
    requires IsUrlToken(u)
    ensures HasScheme(s) && IsUrlToken(s) && HostOf(s) == HostOf(u)
    ensures |u| <= |s| <= |u| + |Https| && s[|s| - |u|..] == u
    ensures s == u <==> HasScheme(u)
    ensures !HasScheme(u) ==> s == Https + u
  {
    if HasScheme(u) then u
    else
      PrependHttps(u);
      Https + u
  }

  /** The `query` key (services.py:85-86): the stripped group 3, present only when that is not empty. */
  function QueryOf(tail: Option<string>): (q: Option<string>)
    ensures q.None? <==> tail.None? || AllSpace(tail.value)
    ensures q.Some? ==> q.value != [] && Stripped(q.value) && q.value == Strip(tail.value)
  {
    match tail
    case None => None
    case Some(x) =>
      StripEmptyIff(x);
      if Strip(x) != [] then Some(Strip(x)) else None
  }

  /** Matching and the fallback to a plain question (services.py:47-93). */
  function Outcome(original: string, t: string, dialogId: int): (r: Parsed)
    ensures r.dialogId == dialogId && !r.StartEmpty?
    ensures r.QueryOnly? <==> MatchWithRetry(t).None?
    ensures r.QueryOnly? ==> r.text == original
    ensures r.Site? ==> HasScheme(r.site) && IsUrlToken(r.site)
    ensures r.Site? && r.query.Some? ==> r.query.value != [] && Stripped(r.query.value)
    ensures r.Site? ==>
      r.site == WithScheme(MatchWithRetry(t).value.site) && r.query == QueryOf(MatchWithRetry(t).value.tail)
  {
    match MatchWithRetry(t)
    case Some(m) => Site(WithScheme(m.site), QueryOf(m.tail), dialogId)
    case None => QueryOnly(original, dialogId)
  }

  /**
    parse_url_from_message, with the underscore repair as intended. A missing
    message (`None`) is read as the empty text.
   */
  function Classify(message: Option<string>, dialogId: int): (r: Parsed)
    ensures r.dialogId == dialogId
    ensures r.StartEmpty? <==>
      IsStartCommand(message.GetOr("")) && AllSpace(message.GetOr("")[|Start|..])
    ensures r.QueryOnly? ==> r.text == message.GetOr("")
    ensures r.Site? ==> HasScheme(r.site) && IsUrlToken(r.site)
    ensures r.Site? && r.query.Some? ==> r.query.value != [] && Stripped(r.query.value)
  {
    var original := message.GetOr("");
    match AfterStart(original)
    case None => StartEmpty(dialogId)
    case Some(t) =>
      Outcome(original, if NeedsUnderscoreRepair(t) then RepairUnderscores(t) else t, dialogId)
  }

  /** parse_url_from_message exactly as services.py:23-93 writes it. */
  function ClassifyAsWritten(message: Option<string>, dialogId: int): (r: Parsed)
    ensures r.dialogId == dialogId
    ensures r.StartEmpty? <==>
      IsStartCommand(message.GetOr("")) && AllSpace(message.GetOr("")[|Start|..])
    ensures r.QueryOnly? ==> r.text == message.GetOr("")
    ensures r.Site? ==> HasScheme(r.site) && IsUrlToken(r.site)
    ensures r.Site? && r.query.Some? ==> r.query.value != [] && Stripped(r.query.value)
  {
    var original := message.GetOr("");
    match AfterStart(original)
    case None => StartEmpty(dialogId)
    case Some(t) =>
      Outcome(original, if NeedsUnderscoreRepair(t) then RepairUnderscoresAsWritten(t) else t, dialogId)
  }

  /** A missing message is classified as the empty text: a plain question with no text. */
  lemma MissingMessage(dialogId: int)
    ensures Classify(None, dialogId) == Classify(Some(""), dialogId) == QueryOnly("", dialogId)
  {
    ShortTextIsQuery(None, dialogId);
  }

  /**
    `/start`, in any letter case, then a space and a website: the command is
    dropped and the website is classified as if it had been sent alone.
   */
  lemma StartThenUrl(c: string, u: string, dialogId: int)
    requires |c| == |Start| && IsStartCommand(c) && IsUrlToken(u)
    ensures Classify(Some(c + " " + u), dialogId) == Site(WithScheme(u), None, dialogId)
  {
    var original := c + " " + u;
    ConcatAssoc(c, " ", u);
    DropPrefix(c, " " + u);
    assert original[..|Start|] == c;
    UrlTokenShape(u);
    StripPadded(u);
    var d :| 0 <= d < |u| && u[d] == '.';
    ClassifyUnrepaired(original, u, dialogId);
    AloneSite(original, u, dialogId);
  }

  /** Once `/start` is handled, a text that needs no repair goes to the matcher as it is. */
  lemma ClassifyUnrepaired(original: string, t: string, dialogId: int)
    requires AfterStart(original) == Some(t) && !NeedsUnderscoreRepair(t)
    ensures Classify(Some(original), dialogId) == Outcome(original, t, dialogId)
  {
  }

  /** A text that is group 1 alone becomes that site, with the default scheme when it has none, and no query. */
  lemma AloneSite(original: string, u: string, dialogId: int)
    requires IsUrlToken(u)
    ensures Outcome(original, u, dialogId) == Site(WithScheme(u), None, dialogId)
  {
    MatchUrlAlone(u);
    assert MatchWithRetry(u) == Some(UrlMatch(u, None));
    assert QueryOf(None) == None;
  }

  /** A message that is no `/start` command and needs no repair goes to the matcher unchanged. */
  lemma ClassifyPlain(original: string, dialogId: int)
    requires !IsStartCommand(original) && !NeedsUnderscoreRepair(original)
    ensures Classify(Some(original), dialogId) == Outcome(original, original, dialogId)
  {
  }

  /** A text that matches at once becomes the matched site. */
  lemma OutcomeOfMatch(original: string, t: string, dialogId: int)
    requires MatchUrl(t).Some?
    ensures Outcome(original, t, dialogId)
      == Site(WithScheme(MatchUrl(t).value.site), QueryOf(MatchUrl(t).value.tail), dialogId)
  {
  }

  /** A text that matches only once widened by `.com` becomes the widened site. */
  lemma OutcomeOfRetry(original: string, t: string, dialogId: int)
    requires MatchUrl(t).None? && ' ' !in t && |t| > 3 && '.' !in t
    requires MatchUrl(t + ".com").Some?
    ensures Outcome(original, t, dialogId)
      == Site(WithScheme(MatchUrl(t + ".com").value.site), QueryOf(MatchUrl(t + ".com").value.tail), dialogId)
  {
  }

  /** A `/start` command begins with a slash. */
  lemma StartCommandSlash(t: string)
    requires IsStartCommand(t)
    ensures t[0] == '/'
  {
    assert AsciiLower(t[0]) == Start[0];
  }

  /** The retry changes the outcome only after a failed match of a text longer than three characters with no space and no dot, and then it matches the text widened by `.com`. */
  lemma RetryOnlyWhen(t: string)
    requires MatchWithRetry(t) != MatchUrl(t)
    ensures MatchUrl(t).None? && ' ' !in t && |t| > 3 && '.' !in t
    ensures MatchWithRetry(t) == MatchUrl(t + ".com")
  {
  }

  /** A message of at most three characters is always a plain question: no website is that short. */
  lemma ShortTextIsQuery(message: Option<string>, dialogId: int)
    requires |message.GetOr("")| <= 3
    ensures Classify(message, dialogId) == QueryOnly(message.GetOr(""), dialogId)
  {
    var original := message.GetOr("");
    var t := if NeedsUnderscoreRepair(original) then RepairUnderscores(original) else original;
    assert !IsStartCommand(original);
    ShortOutcome(original, t, dialogId);
  }

  /** A text of at most three characters neither matches nor is retried. */
  lemma ShortOutcome(original: string, t: string, dialogId: int)
    requires |t| <= 3
    ensures Outcome(original, t, dialogId) == QueryOnly(original, dialogId)
  {
    if MatchUrl(t).Some? {
      UrlTokenShape(MatchUrl(t).value.site);
    }
  }

  /** A message that is exactly a group 1 of the pattern becomes that site, with the default scheme when it has none, and no query. */
  lemma UrlAloneIsSite(u: string, dialogId: int)
    requires IsUrlToken(u)
    ensures Classify(Some(u), dialogId) == Site(WithScheme(u), None, dialogId)
  {
    UrlTokenShape(u);
    if IsStartCommand(u) {
      StartCommandSlash(u);
    }
    MatchUrlAlone(u);
  }

  /** A website, one space and a one-line question become that site with the question as its query. */
  lemma UrlWithQueryIsSite(u: string, q: string, dialogId: int)
    requires IsUrlToken(u) && q != [] && Stripped(q) && '\n' !in q
    ensures Classify(Some(u + " " + q), dialogId) == Site(WithScheme(u), Some(q), dialogId)
  {
    var t := u + " " + q;
    UrlTokenShape(u);
    assert t[0] == u[0];
    if IsStartCommand(t) {
      StartCommandSlash(t);
    }
    var d :| 0 <= d < |u| && u[d] == '.';
    assert t[d] == '.';
    ClassifyPlain(t, dialogId);
    QuerySite(t, u, q, dialogId);
  }

  /** A text that is group 1, one space and a stripped one-line question becomes that site asked that question. */
  lemma QuerySite(original: string, u: string, q: string, dialogId: int)
    requires IsUrlToken(u) && q != [] && Stripped(q) && '\n' !in q
    ensures Outcome(original, u + " " + q, dialogId) == Site(WithScheme(u), Some(q), dialogId)
  {
    MatchUrlWithQuery(u, q);
    OutcomeOfMatch(original, u + " " + q, dialogId);
    StripStripped(q);
  }

  /** A single host label longer than three characters is widened to that label under `.com`, with the default scheme. */
  lemma LabelWidensToCom(l: string, dialogId: int)
    requires IsLabel(l) && |l| > 3
    ensures Classify(Some(l), dialogId) == Site(Https + (l + ".com"), None, dialogId)
  {
    LabelChars(l);
    if IsStartCommand(l) {
      StartCommandSlash(l);
    }
    ClassifyPlain(l, dialogId);
    WidenedLabel(l);
    RetrySite(l, dialogId);
  }

  /** A text that fails to match but matches widened by `.com`, as group 1 alone without a scheme, becomes the widened site. */
  lemma RetrySite(t: string, dialogId: int)
    requires MatchUrl(t).None? && ' ' !in t && |t| > 3 && '.' !in t
    requires IsUrlToken(t + ".com") && !HasScheme(t + ".com")
    ensures Outcome(t, t, dialogId) == Site(Https + (t + ".com"), None, dialogId)
  {
    MatchUrlAlone(t + ".com");
    OutcomeOfRetry(t, t, dialogId);
  }

  /** A label holds only letters, digits and hyphens. */
  lemma LabelChars(l: string)
    requires IsLabel(l)
    ensures NoSpace(l) && ' ' !in l && '.' !in l && '_' !in l && l[0] != '/'
    ensures MatchUrl(l) == None
  {
    assert forall i :: 0 <= i < |l| ==> IsAsciiAlnum(l[i]) || l[i] == '-';
    SpanNonSpaceAt(l, |l|);
    assert l[..|l|] == l;
    if IsUrlToken(l) {
      UrlTokenShape(l);
    }
  }

  /** A label under `.com` is a group 1 of the pattern, with no scheme. */
  lemma WidenedLabel(l: string)
    requires IsLabel(l)
    ensures IsUrlToken(l + ".com") && !HasScheme(l + ".com")
  {
    var w := l + ".com";
    assert l + "." + "com" == w;
    LabelUnderTld(l, "com");
    assert UrlTokenParse(w, "", "", w, "");
    ParsedUrlToken(w, "", "", w, "");
    WidenedLabelNoColon(l);
    NoSchemeWithoutColon(w);
  }

  lemma WidenedLabelNoColon(l: string)
    requires IsLabel(l)
    ensures ':' !in l + ".com"
  {
    var w := l + ".com";
    forall i | 0 <= i < |w| ensures w[i] != ':' {
      if i < |l| {
        assert w[i] == l[i];
        assert IsAsciiAlnum(l[i]) || l[i] == '-';
      } else {
        assert w[i] == ".com"[i - |l|];
      }
    }
  }

  lemma NoSchemeWithoutColon(u: string)
    requires ':' !in u
    ensures !HasScheme(u)
  {
    if |u| > 5 {
      assert u[4] != Http[4] && u[5] != Https[5];
    }
  }

  /** Without leading whitespace, the slice of services.py:42 starts right after the first word, so both repairs agree. */
  lemma RepairAgreesWithoutLeadingSpace(t: string)
    requires NeedsUnderscoreRepair(t) && !IsSpace(t[0])
    ensures RepairUnderscoresAsWritten(t) == RepairUnderscores(t)
  {
    UnderscoreIsNotSpace(t);
    assert SpanSpace(t) == 0;
  }

  /** Messages that do not start with whitespace are classified alike by the code as written and by the repaired model. */
  lemma ClassifyAgreesWithoutLeadingSpace(message: Option<string>, dialogId: int)
    requires message.GetOr("") == [] || !IsSpace(message.GetOr("")[0])
    ensures ClassifyAsWritten(message, dialogId) == Classify(message, dialogId)
  {
    var original := message.GetOr("");
    match AfterStart(original)
    case None =>
    case Some(t) =>
      if NeedsUnderscoreRepair(t) {
        RepairAgreesWithoutLeadingSpace(t);
      }
  }

  /** A character of a label, the character joining two parts, or neither. */
  predicate JoinedChar(c: char, sep: char) {
    IsAsciiAlnum(c) || c == '-' || c == sep
  }

  /** A label, one separator and a top-level domain, character by character. */
  lemma JoinedChars(l: string, tld: string, sep: char)
    requires IsLabel(l) && IsTld(tld)
    ensures forall i :: 0 <= i < |l + [sep] + tld| ==> JoinedChar((l + [sep] + tld)[i], sep)
    ensures forall i :: 0 <= i < |l + [sep] + tld| && i != |l| ==> (l + [sep] + tld)[i] != sep || IsAsciiAlnum(sep) || sep == '-'
  {
    var w := l + [sep] + tld;
    forall i | 0 <= i < |w| ensures JoinedChar(w[i], sep) && (i != |l| ==> w[i] != sep || IsAsciiAlnum(sep) || sep == '-') {
      if i < |l| {
        assert w[i] == l[i];
        assert IsAsciiAlnum(l[i]) || l[i] == '-';
      } else if i > |l| {
        assert w[i] == tld[i - |l| - 1];
      }
    }
  }

  /** `label_tld`: a word the underscore repair turns into a host name. */
  lemma UnderscoreJoined(l: string, tld: string)
    requires IsLabel(l) && IsTld(tld)
    ensures NoSpace(l + "_" + tld) && NeedsUnderscoreRepair(l + "_" + tld)
    ensures ReplaceChar(l + "_" + tld, '_', '.') == l + "." + tld
  {
    var w := l + "_" + tld;
    JoinedChars(l, tld, '_');
    assert w[|l|] == '_';
    var r := ReplaceChar(w, '_', '.');
    var v := l + "." + tld;
    forall i | 0 <= i < |w| ensures r[i] == v[i] {
      if i < |l| {
        assert w[i] == l[i] == v[i];
      } else if i > |l| {
        assert w[i] == tld[i - |l| - 1] == v[i];
      }
    }
  }

  /** `label.tld` is a group 1 of the pattern without a scheme. */
  lemma DottedToken(l: string, tld: string)
    requires IsLabel(l) && IsTld(tld)
    ensures IsUrlToken(l + "." + tld) && !HasScheme(l + "." + tld)
  {
    var u := l + "." + tld;
    LabelUnderTld(l, tld);
    assert UrlTokenParse(u, "", "", u, "");
    ParsedUrlToken(u, "", "", u, "");
    JoinedChars(l, tld, '.');
    JoinedNoColon(u, '.');
    NoSchemeWithoutColon(u);
  }

  /** Label characters and a separator other than `:` leave no `:`. */
  lemma JoinedNoColon(w: string, sep: char)
    requires sep != ':' && forall i :: 0 <= i < |w| ==> JoinedChar(w[i], sep)
    ensures ':' !in w
  {
    forall i | 0 <= i < |w| ensures w[i] != ':' {
      assert JoinedChar(w[i], sep);
    }
  }

  /**
    The repair as written, on one leading space and a word `w` with an
    underscore and no dot: the word is taken from index 1 but the remainder is
    sliced from index `|w|`, so the word's last character comes back as a
    remainder although nothing follows the word.
   */
  lemma RepairMisplacesRest(w: string)
    requires NoSpace(w) && '_' in w && '.' !in w
    ensures NeedsUnderscoreRepair(" " + w) && AfterFirstWord(" " + w) == []
    ensures RepairUnderscoresAsWritten(" " + w) == ReplaceChar(w, '_', '.') + " " + [w[|w| - 1]]
    ensures RepairUnderscores(" " + w) == ReplaceChar(w, '_', '.')
  {
    var t := " " + w;
    var c := [w[|w| - 1]];
    FirstWordAfterSpace(w);
    LastSlice(t);
    assert t[|t| - 1] == w[|w| - 1];
    StripStripped(c);
    ConcatAssoc(ReplaceChar(w, '_', '.'), " ", c);
    assert t[1 + |w|..] == [];
  }

  /** A message that is no `/start` command but needs the repair goes to the matcher repaired. */
  lemma ClassifyRepaired(original: string, dialogId: int)
    requires !IsStartCommand(original) && NeedsUnderscoreRepair(original)
    ensures Classify(Some(original), dialogId) == Outcome(original, RepairUnderscores(original), dialogId)
    ensures ClassifyAsWritten(Some(original), dialogId)
      == Outcome(original, RepairUnderscoresAsWritten(original), dialogId)
  {
  }

  lemma LetterIsNoSpace(c: string)
    requires |c| == 1 && IsAsciiLetter(c[0])
    ensures !IsSpace(c[0]) && '\n' !in c
  {
  }

  /** A text that is group 1 alone, without a scheme, becomes that site under `https://`. */
  lemma BareSite(original: string, u: string, dialogId: int)
    requires IsUrlToken(u) && !HasScheme(u)
    ensures Outcome(original, u, dialogId) == Site(Https + u, None, dialogId)
  {
    MatchUrlAlone(u);
    OutcomeOfMatch(original, u, dialogId);
  }

  /** Group 1 without a scheme and a one-letter query become that site under `https://`, asked that letter. */
  lemma LetterQuerySite(original: string, u: string, c: string, dialogId: int)
    requires IsUrlToken(u) && !HasScheme(u) && |c| == 1 && IsAsciiLetter(c[0])
    ensures Outcome(original, u + " " + c, dialogId) == Site(Https + u, Some(c), dialogId)
  {
    LetterIsNoSpace(c);
    MatchUrlWithQuery(u, c);
    OutcomeOfMatch(original, u + " " + c, dialogId);
    StripStripped(c);
  }

  /** `" " + label + "_" + tld` is no `/start` command and is repaired; the two repairs differ in the remainder. */
  lemma MisalignedInput(l: string, tld: string)
    requires IsLabel(l) && IsTld(tld)
    ensures var t := " " + (l + "_" + tld);
      && !IsStartCommand(t) && NeedsUnderscoreRepair(t)
      && RepairUnderscores(t) == l + "." + tld
      && RepairUnderscoresAsWritten(t) == (l + "." + tld) + " " + [tld[|tld| - 1]]
  {
    var w := l + "_" + tld;
    var t := " " + w;
    if IsStartCommand(t) {
      StartCommandSlash(t);
    }
    assert w[|w| - 1] == tld[|tld| - 1];
    UnderscoreJoined(l, tld);
    RepairMisplacesRest(w);
  }

  /** As written, `" " + label + "_" + tld` asks the site `label.tld` a one-letter question. */
  lemma MisalignedAsWritten(l: string, tld: string, dialogId: int)
    requires IsLabel(l) && IsTld(tld)
    ensures ClassifyAsWritten(Some(" " + (l + "_" + tld)), dialogId)
      == Site(Https + (l + "." + tld), Some([tld[|tld| - 1]]), dialogId)
  {
    var u := l + "." + tld;
    var t := " " + (l + "_" + tld);
    MisalignedInput(l, tld);
    ClassifyRepaired(t, dialogId);
    DottedToken(l, tld);
    LetterQuerySite(t, u, [tld[|tld| - 1]], dialogId);
  }

  /** Repaired, `" " + label + "_" + tld` is the bare site `label.tld`. */
  lemma MisalignedRepaired(l: string, tld: string, dialogId: int)
    requires IsLabel(l) && IsTld(tld)
    ensures Classify(Some(" " + (l + "_" + tld)), dialogId) == Site(Https + (l + "." + tld), None, dialogId)
  {
    var u := l + "." + tld;
    var t := " " + (l + "_" + tld);
    MisalignedInput(l, tld);
    ClassifyRepaired(t, dialogId);
    DottedToken(l, tld);
    BareSite(t, u, dialogId);
  }
}
