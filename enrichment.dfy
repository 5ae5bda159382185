/**
  The company record that save_url_to_db appends to the page text
  (services.py:110-113) and that generate_ai_description and
  generate_ai_question_answer take out again before prompting
  (services.py:324-338 and 395-409, the same code twice).

  The record travels as the text `json.dumps` made of it. Decoding it is not
  modelled: `parses` stands for "json.loads accepts this text", and the
  round trip asks of it only that it accepts what `json.dumps` produced.
 */
module Enrichment {
  import opened Options
  import opened PyStrings

  const Marker := "YANDEX_COMPANY_INFO: "

  /** The marker followed by the opening brace of the record, where `YANDEX_COMPANY_INFO: (\{.*\})` must start. */
  const MarkerBrace := Marker + "{"

  /** What `json.dumps` makes of a non-empty dictionary: `{`, then `}` at the end. */
  predicate IsJsonObject(json: string) {
    |json| >= 2 && json[0] == '{' && json[|json| - 1] == '}'
  }

  /**
    The text save_url_to_db stores (services.py:109-113). `record` is the
    dumped company record, or None when search_with_yandex returned an empty
    dictionary, which Python treats as false.
   */
  function Combine(cleaned: string, record: Option<string>): (r: string)
    ensures record.None? ==> r == cleaned
    ensures record.Some? ==> |r| == |cleaned| + 2 + |Marker| + |record.value|
    ensures record.Some? ==> r[..|cleaned|] == cleaned && r[|cleaned| + 2 + |Marker|..] == record.value
  {
    match record
    case None => cleaned
    case Some(json) =>
      var r := cleaned + "\n\n" + Marker + json;
      assert r[..|cleaned|] == cleaned;
      assert r[|cleaned| + 2 + |Marker|..] == json;
      r
  }

  /**
    `YANDEX_COMPANY_INFO: (\{.*\})` with `re.DOTALL` matches `text` from index
    `i` with its closing brace at index `j`.
   */
  ghost predicate MatchesAt(text: string, i: int, j: int) {
    OccursAt(text, MarkerBrace, i) && i + |Marker| < j < |text| && text[j] == '}'
  }

  /** Group 0 of a match is `text[start..end]`; group 1 starts at `start + |Marker|`. */
  datatype InfoSpan = InfoSpan(start: nat, end: nat)

  /**
    `re.search`: the leftmost start, and there the longest match, since `.*`
    is greedy and with DOTALL also crosses line feeds, so group 1 runs to the
    last `}` of the whole text.
   */
  function FindInfo(text: string): (r: Option<InfoSpan>)
    ensures r.Some? ==> MatchesAt(text, r.value.start, r.value.end - 1)
    ensures r.Some? ==> forall i, j :: MatchesAt(text, i, j) ==> r.value.start <= i && j < r.value.end
    ensures r.None? ==> forall i, j :: !MatchesAt(text, i, j)
  {
    match Find(text, MarkerBrace)
    case None => None
    case Some(i) =>
      match LastIndexOfChar(text, '}')
      case None => None
      case Some(j) => if i + |Marker| < j then Some(InfoSpan(i, j + 1)) else None
  }

  /** Group 0 of the match occurs in the text only where the match is. */
  lemma MatchOccursOnce(text: string, span: InfoSpan)
    requires FindInfo(text) == Some(span)
    ensures OccursAt(text, text[span.start..span.end], span.start)
    ensures forall i :: i != span.start ==> !OccursAt(text, text[span.start..span.end], i)
  {
    var g := text[span.start..span.end];
    assert g[..|MarkerBrace|] == MarkerBrace;
    assert g[|g| - 1] == '}';
    forall i | i != span.start ensures !OccursAt(text, g, i) {
      if 0 <= i < span.start && i + |g| <= |text| {
        assert !OccursAt(text, MarkerBrace, i);
        assert text[i..i + |g|][..|MarkerBrace|] == text[i..i + |MarkerBrace|];
      } else if span.start < i && i + |g| <= |text| {
        assert text[i..i + |g|][|g| - 1] == text[i + |g| - 1];
        assert text[i + |g| - 1] != '}';
      }
    }
  }

  /** `text.replace(group0, "")` cuts out exactly the match. */
  lemma RemoveMatch(text: string, span: InfoSpan)
    requires FindInfo(text) == Some(span)
    ensures ReplaceAll(text, text[span.start..span.end], "") == text[..span.start] + text[span.end..]
  {
    var group0 := text[span.start..span.end];
    MatchOccursOnce(text, span);
    ReplaceAllSingle(text, group0, "", span.start);
    assert text[..span.start] + "" + text[span.start + |group0|..] == text[..span.start] + text[span.end..];
  }

  /** What the prompt builders keep: the decoded record, if any, and the page text they go on with. */
  datatype StoredContext = StoredContext(info: Option<string>, context: string)

  /**
    The extraction prelude of generate_ai_description and
    generate_ai_question_answer: find the record, decode it, and when that
    succeeds remove the matched text with `str.replace`; otherwise keep the
    text as it is and the record empty.
   */
  function ReadStored(text: string, parses: string -> bool): (r: StoredContext)
    ensures r.info.None? ==> r.context == text
    ensures r.info.Some? ==>
      && FindInfo(text).Some?
      && var span := FindInfo(text).value;
      && r.info.value == text[span.start + |Marker|..span.end]
      && r.context == text[..span.start] + text[span.end..]
    ensures r.info.Some? ==> IsJsonObject(r.info.value) && parses(r.info.value)
    ensures FindInfo(text).Some? ==>
      var span := FindInfo(text).value;
      span.start + |Marker| < span.end <= |text| &&
      (r.info.Some? <==> parses(text[span.start + |Marker|..span.end]))
  {
    match FindInfo(text)
    case None => StoredContext(None, text)
    case Some(span) =>
      var group1 := text[span.start + |Marker|..span.end];
      assert group1[0] == text[span.start..span.start + |MarkerBrace|][|Marker|] == '{';
      assert group1[|group1| - 1] == text[span.end - 1] == '}';
      if parses(group1) then
        RemoveMatch(text, span);
        StoredContext(Some(group1), ReplaceAll(text, text[span.start..span.end], ""))
      else StoredContext(None, text)
  }

  /** `company_info.get("company_name", "")` with the placeholder "Unknown" read as no name (services.py:336-338). */
  function CompanyName(field: Option<string>): (name: string)
    ensures name != "Unknown"
    ensures name == [] <==> field.None? || field.value == [] || field.value == "Unknown"
    ensures name != [] ==> field == Some(name)
  {
    match field
    case None => ""
    case Some(n) => if n == "Unknown" then "" else n
  }

  /** An occurrence of the marker in `cleaned` is an occurrence in any text that starts with it. */
  lemma OccursInPrefix(cleaned: string, text: string, i: nat)
    requires cleaned <= text && OccursAt(cleaned, MarkerBrace, i)
    ensures OccursAt(text, MarkerBrace, i)
  {
    assert text[i..i + |MarkerBrace|] == cleaned[i..i + |MarkerBrace|];
  }

  /** The marker holds no line feed. */
  lemma MarkerHasNoLineFeed()
    ensures forall k :: 0 <= k < |MarkerBrace| ==> MarkerBrace[k] != '\n'
  {
  }

  /** A window of the stored text that starts before the record's marker is no marker. */
  lemma NoEarlierMarker(cleaned: string, json: string, i: nat)
    requires Find(cleaned, MarkerBrace).None?
    requires i < |cleaned| + 2 && i + |MarkerBrace| <= |cleaned| + 2 + |Marker| + |json|
    ensures !OccursAt(cleaned + "\n\n" + Marker + json, MarkerBrace, i)
  {
    var text := cleaned + "\n\n" + Marker + json;
    var w := text[i..i + |MarkerBrace|];
    if i + |MarkerBrace| <= |cleaned| {
      assert !OccursAt(cleaned, MarkerBrace, i);
      assert w == cleaned[i..i + |MarkerBrace|];
    } else {
      var p := if i < |cleaned| then |cleaned| else i;
      assert text[p] == '\n';
      assert w[p - i] == '\n';
      MarkerHasNoLineFeed();
    }
  }

  /** In a stored text, the record's marker is the first one unless `cleaned` holds one. */
  lemma FirstMarker(cleaned: string, json: string)
    requires IsJsonObject(json) && Find(cleaned, MarkerBrace).None?
    ensures Find(Combine(cleaned, Some(json)), MarkerBrace) == Some(|cleaned| + 2)
  {
    var text := Combine(cleaned, Some(json));
    var c := |cleaned| + 2;
    assert text == cleaned + "\n\n" + Marker + json;
    assert text[c..c + |MarkerBrace|] == MarkerBrace by {
      assert text[c..c + |Marker|] == Marker;
      assert text[c + |Marker|] == json[0];
    }
    assert OccursAt(text, MarkerBrace, c);
    forall i | 0 <= i < c ensures !OccursAt(text, MarkerBrace, i) {
      if i + |MarkerBrace| <= |text| {
        NoEarlierMarker(cleaned, json, i);
      }
    }
    var r := Find(text, MarkerBrace);
    assert r.Some? && r.value <= c;
  }

  /**
    The round trip of services.py:110-113 and 324-331: when the page text
    holds no marker of its own, the record comes back exactly, and removing it
    leaves the page text and the two line feeds put in front of the marker.
   */
  lemma MarkerRoundTrip(cleaned: string, json: string, parses: string -> bool)
    requires IsJsonObject(json) && parses(json) && Find(cleaned, MarkerBrace).None?
    ensures ReadStored(Combine(cleaned, Some(json)), parses) == StoredContext(Some(json), cleaned + "\n\n")
  {
    var text := Combine(cleaned, Some(json));
    var c := |cleaned| + 2;
    StoredSpan(cleaned, json);
    assert text[c + |Marker|..|text|] == json;
    assert text[..c] == cleaned + "\n\n";
    assert text[|text|..] == [];
  }

  /** In a stored text whose page text holds no marker, the match runs from the record's marker to the end. */
  lemma StoredSpan(cleaned: string, json: string)
    requires IsJsonObject(json) && Find(cleaned, MarkerBrace).None?
    ensures FindInfo(Combine(cleaned, Some(json))) == Some(InfoSpan(|cleaned| + 2, |Combine(cleaned, Some(json))|))
  {
    var text := Combine(cleaned, Some(json));
    FirstMarker(cleaned, json);
    assert text[|text| - 1] == json[|json| - 1];
    LastBraceAtEnd(text);
  }

  /**
    The round trip fails whenever the page text itself holds the marker: the
    search then starts inside the page text and group 1 is longer than the
    record.
   */
  lemma MarkerInPageText(cleaned: string, json: string, parses: string -> bool)
    requires IsJsonObject(json) && Find(cleaned, MarkerBrace).Some?
    ensures ReadStored(Combine(cleaned, Some(json)), parses).info != Some(json)
  {
    var text := Combine(cleaned, Some(json));
    var p := Find(cleaned, MarkerBrace).value;
    OccursInPrefix(cleaned, text, p);
    LastBraceAtEnd(text);
    var i := Find(text, MarkerBrace).value;
    assert i <= p < |cleaned|;
    var r := ReadStored(text, parses);
    if r.info.Some? {
      assert |r.info.value| == |text| - i - |Marker| > |json|;
    }
  }

  /** A text ending in `}` has its last `}` at the end. */
  lemma LastBraceAtEnd(text: string)
    requires text != [] && text[|text| - 1] == '}'
    ensures LastIndexOfChar(text, '}') == Some(|text| - 1)
  {
  }

  /** The record is recovered exactly if and only if the page text holds no marker of its own. */
  lemma MarkerRecoveredIff(cleaned: string, json: string, parses: string -> bool)
    requires IsJsonObject(json) && parses(json)
    ensures ReadStored(Combine(cleaned, Some(json)), parses).info == Some(json)
      <==> Find(cleaned, MarkerBrace).None?
  {
    if Find(cleaned, MarkerBrace).None? {
      MarkerRoundTrip(cleaned, json, parses);
    } else {
      MarkerInPageText(cleaned, json, parses);
    }
  }

  /** Without a record nothing is appended, and a page text without a marker reads back unchanged and without a record. */
  lemma NoRecordRoundTrip(cleaned: string, parses: string -> bool)
    requires Find(cleaned, MarkerBrace).None?
    ensures ReadStored(Combine(cleaned, None), parses) == StoredContext(None, cleaned)
  {
  }
}
