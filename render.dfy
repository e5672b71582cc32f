/** The response validator and renderer (`convertToHtml`, main.py lines
    120-235). The model's JSON text is taken as already parsed: the response
    is a map from top-level keys to values, and each value is shown in the
    document the way a Python f-string shows it (`str(value)`). */
module Render {
  import opened Results
  import opened Text

  /** A parsed JSON value. */
  datatype Value =
    | Str(s: string)
      /** An array, in document order. */
    | Arr(items: seq<Value>)
      /** An object, with its members in document order and distinct keys. */
    | Obj(members: seq<Member>)
      /** A number, `true`, `false` or `null`, carrying the text Python prints
          for it (`42`, `1.5`, `True`, `False`, `None`). */
    | Scalar(text: string)

  datatype Member = Member(key: string, value: Value)

  /** Why rendering stopped: the check for required keys, or a Python
      `TypeError`/`KeyError` raised while rendering the key terms. */
  datatype RenderError =
    | MissingKey(key: string)
    | KeyTermsNotIterable
    | KeyTermNotSubscriptable
    | KeyTermFieldMissing(field: string)

  /** The keys the response must have, in the order they are checked. */
  const RequiredKeys: seq<string> :=
    ["title", "summary", "meaning", "importance", "impact_on_us", "food_for_thought", "key_terms"]

  // ----- Showing values: Python's str() and repr() -----

  /** The quote repr() puts around a string: double quotes when the string
      holds a single quote and no double quote, single quotes otherwise. */
  function QuoteFor(s: string): char
  {
    if '\'' in s && '"' !in s then '"' else '\''
  }

  const HexDigits: string := "0123456789abcdef"

  /** How repr() writes one character inside a string quoted with `quote`. */
  function EscapeChar(c: char, quote: char): string
  {
    if c == '\\' then "\\\\"
    else if c == quote then ['\\', c]
    else if c == '\n' then "\\n"
    else if c == '\r' then "\\r"
    else if c == '\t' then "\\t"
    else if c as int < 0x20 || c as int == 0x7f then
      "\\x" + [HexDigits[c as int / 16], HexDigits[c as int % 16]]
    else [c]
  }

  function EscapeChars(s: string, quote: char): string
  {
    if s == [] then "" else EscapeChar(s[0], quote) + EscapeChars(s[1..], quote)
  }

  /** repr() of a string. */
  function StrRepr(s: string): string
  {
    var quote := QuoteFor(s);
    [quote] + EscapeChars(s, quote) + [quote]
  }

  /** repr() of a value, as it appears inside a printed list or dict. */
  function Repr(v: Value): string
    decreases v
  {
    match v
    case Str(s) => StrRepr(s)
    case Scalar(text) => text
    case Arr(items) =>
      "[" + Join(", ", seq(|items|, i requires 0 <= i < |items| => Repr(items[i]))) + "]"
    case Obj(members) =>
      "{" + Join(", ", seq(|members|, i requires 0 <= i < |members| =>
                             StrRepr(members[i].key) + ": " + Repr(members[i].value))) + "}"
  }

  /** str() of a value, which is what an f-string inserts: a string verbatim,
      anything else as repr() prints it. */
  function Show(v: Value): (r: string)
    ensures v.Str? ==> r == v.s
  {
    if v.Str? then v.s else Repr(v)
  }

  // ----- The required-key check -----

  /** Every key of `keys` is present. */
  predicate AllPresent(keys: seq<string>, json: map<string, Value>)
  {
    forall i :: 0 <= i < |keys| ==> keys[i] in json
  }

  /** `keys[i]` is absent and every key before it is present. */
  predicate FirstAbsentAt(keys: seq<string>, json: map<string, Value>, i: int)
  {
    0 <= i < |keys| && keys[i] !in json && forall j :: 0 <= j < i ==> keys[j] in json
  }

  /** The first key of `keys` that `json` lacks, if any. */
  function FirstMissing(keys: seq<string>, json: map<string, Value>): (r: Option<string>)
    ensures r.None? <==> AllPresent(keys, json)
    ensures r.Some? ==> r.value in keys && r.value !in json
  {
    if keys == [] then None
    else if keys[0] !in json then Some(keys[0])
    else
      var rest := FirstMissing(keys[1..], json);
      assert AllPresent(keys[1..], json) ==> AllPresent(keys, json) by {
        if AllPresent(keys[1..], json) {
          forall i | 0 < i < |keys| ensures keys[i] in json {
            assert keys[i] == keys[1..][i - 1];
          }
        }
      }
      rest
  }

  /** The reported key is the first absent one in the order of `keys`. */
  lemma {:induction false} FirstMissingIsFirst(keys: seq<string>, json: map<string, Value>, i: int)
    requires FirstAbsentAt(keys, json, i)
    ensures FirstMissing(keys, json) == Some(keys[i])
  {
    if i > 0 {
      assert keys[0] in json;
      FirstMissingIsFirst(keys[1..], json, i - 1);
    }
  }

  /** The loop of the required-key check: stops at the first absent key. */
  method CheckRequiredKeys(json: map<string, Value>) returns (missing: Option<string>)
    ensures missing == FirstMissing(RequiredKeys, json)
  {
    for i := 0 to |RequiredKeys|
      invariant forall j :: 0 <= j < i ==> RequiredKeys[j] in json
    {
      if RequiredKeys[i] !in json {
        FirstMissingIsFirst(RequiredKeys, json, i);
        return Some(RequiredKeys[i]);
      }
    }
    return None;
  }

  // ----- The key terms -----

  /** `obj[key]` for a parsed object. */
  function Get(members: seq<Member>, key: string): Option<Value>
  {
    if members == [] then None
    else if members[0].key == key then Some(members[0].value)
    else Get(members[1..], key)
  }

  /** What `for term_info in key_terms` iterates over: the items of a list,
      the one-character strings of a string, the keys of an object; a number,
      a boolean or null is not iterable. */
  function Elements(v: Value): Result<seq<Value>, RenderError>
  {
    match v
    case Arr(items) => Ok(items)
    case Str(s) => Ok(seq(|s|, i requires 0 <= i < |s| => Str([s[i]])))
    case Obj(members) => Ok(seq(|members|, i requires 0 <= i < |members| => Str(members[i].key)))
    case Scalar(_) => Err(KeyTermsNotIterable)
  }

  const TermOpen: string := "<li class=\"border-l-4 border-green-500 pl-4\"><strong>"
  const TermBetween: string := "</strong><span class=\"text-gray-600\">"
  const TermClose: string := "</span></li>"

  /** The list item for one key term. */
  function TermHtml(term: string, definition: string): string
  {
    Concat([TermOpen, term, TermBetween, definition, TermClose])
  }

  /** The fragment for one element of `key_terms`: `term_info["term"]` and
      `term_info["definition"]`, in that order, must both exist. */
  function TermFragment(item: Value): Result<string, RenderError>
  {
    match item
    case Obj(members) =>
      (match Get(members, "term")
       case None => Err(KeyTermFieldMissing("term"))
       case Some(term) =>
         match Get(members, "definition")
         case None => Err(KeyTermFieldMissing("definition"))
         case Some(definition) => Ok(TermHtml(Show(term), Show(definition))))
    case _ => Err(KeyTermNotSubscriptable)
  }

  /** The fragments of `items` in order, or the error of the first element
      that has none. */
  function Fragments(items: seq<Value>): Result<seq<string>, RenderError>
  {
    if items == [] then Ok([])
    else match Fragments(items[..|items| - 1])
      case Err(e) => Err(e)
      case Ok(done) =>
        match TermFragment(items[|items| - 1])
        case Err(e) => Err(e)
        case Ok(fragment) => Ok(done + [fragment])
  }

  /** The key-term list of the document: the fragments joined with "". */
  function KeyTermsHtml(keyTerms: Value): Result<string, RenderError>
  {
    match Elements(keyTerms)
    case Err(e) => Err(e)
    case Ok(items) =>
      match Fragments(items)
      case Err(e) => Err(e)
      case Ok(fragments) => Ok(Concat(fragments))
  }

  /** An error on a prefix is the error of the whole list. */
  lemma {:induction false} FragmentsErrorPersists(items: seq<Value>, i: nat)
    requires i <= |items|
    requires Fragments(items[..i]).Err?
    ensures Fragments(items) == Fragments(items[..i])
    decreases |items| - i
  {
    if i < |items| {
      var longer := items[..|items| - 1];
      assert longer[..i] == items[..i];
      FragmentsErrorPersists(longer, i);
    } else {
      assert items[..i] == items;
    }
  }

  /** A list whose earlier elements all have fragments and whose last one
      has none fails with the last element's error. */
  lemma FragmentsStopAtLast(items: seq<Value>)
    requires items != []
    requires Fragments(items[..|items| - 1]).Ok?
    requires TermFragment(items[|items| - 1]).Err?
    ensures Fragments(items) == Err(TermFragment(items[|items| - 1]).error)
  {
  }

  /** When every key term before `i` is well formed and the `i`-th is not,
      the whole list fails with the `i`-th term's error. */
  lemma {:induction false} FirstMalformedTermError(items: seq<Value>, i: nat)
    requires i < |items|
    requires forall k :: 0 <= k < i ==> TermFragment(items[k]).Ok?
    requires TermFragment(items[i]).Err?
    ensures Fragments(items) == Err(TermFragment(items[i]).error)
  {
    var before := items[..i];
    assert forall k :: 0 <= k < i ==> TermFragment(before[k]).Ok? by {
      forall k | 0 <= k < i ensures TermFragment(before[k]).Ok? {
        assert before[k] == items[k];
      }
    }
    FragmentsOnePerElement(before);
    var upTo := items[..i + 1];
    assert upTo[..|upTo| - 1] == before && upTo[|upTo| - 1] == items[i];
    FragmentsStopAtLast(upTo);
    FragmentsErrorPersists(items, i + 1);
  }

  /** `generate_key_terms_html`: appends one fragment per element of
      `key_terms` and joins them. */
  method GenerateKeyTermsHtml(keyTerms: Value) returns (r: Result<string, RenderError>)
    ensures r == KeyTermsHtml(keyTerms)
  {
    var elements := Elements(keyTerms);
    if elements.Err? {
      return Err(elements.error);
    }
    var items := elements.value;
    var termsHtml: seq<string> := [];
    for i := 0 to |items|
      invariant Fragments(items[..i]) == Ok(termsHtml)
    {
      var fragment := TermFragment(items[i]);
      assert items[..i + 1][..i] == items[..i];
      if fragment.Err? {
        FragmentsErrorPersists(items, i + 1);
        return Err(fragment.error);
      }
      termsHtml := termsHtml + [fragment.value];
    }
    assert items[..|items|] == items;
    r := Ok(Concat(termsHtml));
  }

  /** A fragment exists exactly for an object with both a `term` and a
      `definition`, and holds both verbatim as str() shows them. */
  lemma TermFragmentEmbeds(item: Value)
    ensures TermFragment(item).Ok? <==>
      item.Obj? && Get(item.members, "term").Some? && Get(item.members, "definition").Some?
    ensures TermFragment(item).Ok? ==>
      && Contains(TermFragment(item).value, Show(Get(item.members, "term").value))
      && Contains(TermFragment(item).value, Show(Get(item.members, "definition").value))
  {
    if TermFragment(item).Ok? {
      var term := Show(Get(item.members, "term").value);
      var definition := Show(Get(item.members, "definition").value);
      var pieces := [TermOpen, term, TermBetween, definition, TermClose];
      ConcatContainsPart(pieces, 1);
      ConcatContainsPart(pieces, 3);
    }
  }

  /** One fragment per element, in order: the fragments exist exactly when
      every element has one, and then there are as many fragments as
      elements and the k-th is the k-th element's. */
  lemma {:induction false} FragmentsOnePerElement(items: seq<Value>)
    ensures Fragments(items).Ok? <==> forall k :: 0 <= k < |items| ==> TermFragment(items[k]).Ok?
    ensures Fragments(items).Ok? ==>
      && |Fragments(items).value| == |items|
      && forall k :: 0 <= k < |items| ==> TermFragment(items[k]) == Ok(Fragments(items).value[k])
  {
    if items != [] {
      var init := items[..|items| - 1];
      FragmentsOnePerElement(init);
      assert forall k :: 0 <= k < |init| ==> init[k] == items[k];
    }
  }

  /** Every key term's `term` and `definition` appear verbatim in the
      key-term list. */
  lemma KeyTermsEmbed(items: seq<Value>, html: string, k: nat)
    requires KeyTermsHtml(Arr(items)) == Ok(html)
    requires k < |items|
    ensures items[k].Obj?
    ensures Get(items[k].members, "term").Some? && Get(items[k].members, "definition").Some?
    ensures Contains(html, Show(Get(items[k].members, "term").value))
    ensures Contains(html, Show(Get(items[k].members, "definition").value))
  {
    FragmentsOnePerElement(items);
    var fragments := Fragments(items).value;
    TermFragmentEmbeds(items[k]);
    ConcatContainsPart(fragments, k);
    ContainsTransitive(html, fragments[k], Show(Get(items[k].members, "term").value));
    ContainsTransitive(html, fragments[k], Show(Get(items[k].members, "definition").value));
  }

  // ----- The document -----

  const PageOpen: string := "<div class=\"max-w-3xl mx-auto my-8 sm:my-12\"><div><div><h1>"
  const AfterTitle: string := "</h1><div><p><span class=\"font-bold\">한 줄 요약!</span>"
  const AfterSummary: string := "</p></div><div class=\"space-y-10\"><div><h2><span>💡</span>무슨 뜻일까요?</h2><p>"
  const AfterMeaning: string := "</p></div><div><h2><span>🌍</span>이게 왜 중요할까요?</h2><p>"
  const AfterImportance: string := "</p></div><div><h2><span>👨‍👩‍👧‍👦</span>나와 우리 가족에게는?</h2><p>"
  const AfterImpact: string := "</p></div><div><h2><span>🤔</span>슬기롭게 생각해 보기</h2><p>"
  const AfterThought: string :=
    "</p></div></div><hr><div><h2><span>🔍</span>오늘의 경제 용어 돋보기</h2><ul class=\"space-y-4\">"
  const AfterKeyTerms: string := "</ul></div><hr><div class=\"text-center\"><a href=\""
  const PageClose: string :=
    "\" target=\"_blank\" rel=\"noopener noreferrer\"><span>📰</span>뉴스 원본 보기<span>↗</span></a></div></div></div></div>"

  /** The fixed template with the six texts, the key-term list and the
      article link put in their places. */
  function Document(title: string, summary: string, meaning: string, importance: string,
                    impactOnUs: string, foodForThought: string, keyTermsHtml: string,
                    articleUrl: string): string
  {
    Concat([PageOpen, title, AfterTitle, summary, AfterSummary, meaning, AfterMeaning,
            importance, AfterImportance, impactOnUs, AfterImpact, foodForThought, AfterThought,
            keyTermsHtml, AfterKeyTerms, articleUrl, PageClose])
  }

  /** Once the check passes, each of the seven keys can be looked up. */
  lemma RequiredKeysPresent(json: map<string, Value>)
    requires AllPresent(RequiredKeys, json)
    ensures "title" in json && "summary" in json && "meaning" in json && "importance" in json
    ensures "impact_on_us" in json && "food_for_thought" in json && "key_terms" in json
  {
    assert RequiredKeys[0] in json && RequiredKeys[1] in json && RequiredKeys[2] in json;
    assert RequiredKeys[3] in json && RequiredKeys[4] in json && RequiredKeys[5] in json;
    assert RequiredKeys[6] in json;
  }

  /** What `convertToHtml` returns for an already parsed response. */
  function Rendered(json: map<string, Value>, articleUrl: string): Result<string, RenderError>
  {
    match FirstMissing(RequiredKeys, json)
    case Some(key) => Err(MissingKey(key))
    case None =>
      RequiredKeysPresent(json);
      match KeyTermsHtml(json["key_terms"])
      case Err(e) => Err(e)
      case Ok(termsHtml) =>
        Ok(Document(Show(json["title"]), Show(json["summary"]), Show(json["meaning"]),
                    Show(json["importance"]), Show(json["impact_on_us"]),
                    Show(json["food_for_thought"]), termsHtml, articleUrl))
  }

  /** `convertToHtml` on an already parsed response: the required-key check,
      then the key terms, then the template. */
  method ConvertToHtml(json: map<string, Value>, articleUrl: string) returns (r: Result<string, RenderError>)
    ensures r == Rendered(json, articleUrl)
  {
    var missing := CheckRequiredKeys(json);
    if missing.Some? {
      return Err(MissingKey(missing.value));
    }
    RequiredKeysPresent(json);
    var termsHtml := GenerateKeyTermsHtml(json["key_terms"]);
    if termsHtml.Err? {
      return Err(termsHtml.error);
    }
    r := Ok(Document(Show(json["title"]), Show(json["summary"]), Show(json["meaning"]),
                     Show(json["importance"]), Show(json["impact_on_us"]),
                     Show(json["food_for_thought"]), termsHtml.value, articleUrl));
  }

  // ----- Properties of the rendered document -----

  /** When some key is absent, there is a first absent one. */
  lemma {:induction false} FirstAbsentExists(keys: seq<string>, json: map<string, Value>)
    requires !AllPresent(keys, json)
    ensures exists i :: FirstAbsentAt(keys, json, i)
  {
    if keys[0] in json {
      FirstAbsentExists(keys[1..], json);
      var i :| FirstAbsentAt(keys[1..], json, i);
      assert FirstAbsentAt(keys, json, i + 1);
    } else {
      assert FirstAbsentAt(keys, json, 0);
    }
  }

  /** A response lacking any of the seven keys is rejected, naming the first
      absent key in the fixed order; nothing is rendered. */
  lemma AbsentKeyRejected(json: map<string, Value>, articleUrl: string, key: string)
    requires key in RequiredKeys && key !in json
    ensures exists i :: FirstAbsentAt(RequiredKeys, json, i) &&
                        Rendered(json, articleUrl) == Err(MissingKey(RequiredKeys[i]))
  {
    FirstAbsentExists(RequiredKeys, json);
    var i :| FirstAbsentAt(RequiredKeys, json, i);
    FirstMissingIsFirst(RequiredKeys, json, i);
  }

  /** The key reported is exactly the first absent one. */
  lemma RejectionNamesFirstAbsent(json: map<string, Value>, articleUrl: string, i: int)
    requires FirstAbsentAt(RequiredKeys, json, i)
    ensures Rendered(json, articleUrl) == Err(MissingKey(RequiredKeys[i]))
  {
    FirstMissingIsFirst(RequiredKeys, json, i);
  }

  /** With `title` and `summary` present and `meaning` absent, `meaning` is
      reported, whatever else is missing. */
  lemma MissingMeaningReported(json: map<string, Value>, articleUrl: string)
    requires "title" in json && "summary" in json && "meaning" !in json
    ensures Rendered(json, articleUrl) == Err(MissingKey("meaning"))
  {
    RejectionNamesFirstAbsent(json, articleUrl, 2);
  }

  /** A rendered document holds the six texts as str() shows them, the whole
      key-term list and the article link, each verbatim. */
  lemma RenderedEmbedsFields(json: map<string, Value>, articleUrl: string, doc: string)
    requires Rendered(json, articleUrl) == Ok(doc)
    ensures AllPresent(RequiredKeys, json)
    ensures "title" in json && Contains(doc, Show(json["title"]))
    ensures "summary" in json && Contains(doc, Show(json["summary"]))
    ensures "meaning" in json && Contains(doc, Show(json["meaning"]))
    ensures "importance" in json && Contains(doc, Show(json["importance"]))
    ensures "impact_on_us" in json && Contains(doc, Show(json["impact_on_us"]))
    ensures "food_for_thought" in json && Contains(doc, Show(json["food_for_thought"]))
    ensures "key_terms" in json && KeyTermsHtml(json["key_terms"]).Ok?
    ensures Contains(doc, KeyTermsHtml(json["key_terms"]).value)
    ensures Contains(doc, articleUrl)
  {
    RequiredKeysPresent(json);
    var pieces := [PageOpen, Show(json["title"]), AfterTitle, Show(json["summary"]), AfterSummary,
                   Show(json["meaning"]), AfterMeaning, Show(json["importance"]), AfterImportance,
                   Show(json["impact_on_us"]), AfterImpact, Show(json["food_for_thought"]), AfterThought,
                   KeyTermsHtml(json["key_terms"]).value, AfterKeyTerms, articleUrl, PageClose];
    assert doc == Concat(pieces);
    ConcatContainsPart(pieces, 1);
    ConcatContainsPart(pieces, 3);
    ConcatContainsPart(pieces, 5);
    ConcatContainsPart(pieces, 7);
    ConcatContainsPart(pieces, 9);
    ConcatContainsPart(pieces, 11);
    ConcatContainsPart(pieces, 13);
    ConcatContainsPart(pieces, 15);
  }

  /** A rendered document holds every key term's `term` and `definition`. */
  lemma RenderedEmbedsKeyTerms(json: map<string, Value>, articleUrl: string, doc: string,
                               items: seq<Value>, k: nat)
    requires Rendered(json, articleUrl) == Ok(doc)
    requires "key_terms" in json && json["key_terms"] == Arr(items)
    requires k < |items|
    ensures items[k].Obj?
    ensures Get(items[k].members, "term").Some? && Get(items[k].members, "definition").Some?
    ensures Contains(doc, Show(Get(items[k].members, "term").value))
    ensures Contains(doc, Show(Get(items[k].members, "definition").value))
  {
    RenderedEmbedsFields(json, articleUrl, doc);
    var html := KeyTermsHtml(Arr(items)).value;
    KeyTermsEmbed(items, html, k);
    ContainsTransitive(doc, html, Show(Get(items[k].members, "term").value));
    ContainsTransitive(doc, html, Show(Get(items[k].members, "definition").value));
  }

  /** A response with all seven keys and well-formed key terms is rendered. */
  lemma WellFormedResponseRendered(json: map<string, Value>, articleUrl: string)
    requires AllPresent(RequiredKeys, json)
    requires "key_terms" in json
    requires KeyTermsHtml(json["key_terms"]).Ok?
    ensures Rendered(json, articleUrl).Ok?
  {
  }

  /** A response whose seven fields are strings and whose key terms are one
      `{"term": ..., "definition": ...}` object (for instance `{"title": "T",
      "summary": "S", ..., "key_terms": [{"term": "GDP", ...}]}`) is rendered
      into a document holding the title, the summary, the term, its
      definition and the article link. */
  lemma StringResponseRendered(title: string, summary: string, meaning: string, importance: string,
                               impactOnUs: string, foodForThought: string, term: string,
                               definition: string, articleUrl: string)
    ensures var json := map["title" := Str(title), "summary" := Str(summary), "meaning" := Str(meaning),
                            "importance" := Str(importance), "impact_on_us" := Str(impactOnUs),
                            "food_for_thought" := Str(foodForThought),
                            "key_terms" := Arr([Obj([Member("term", Str(term)),
                                                     Member("definition", Str(definition))])])];
      && Rendered(json, articleUrl).Ok?
      && Contains(Rendered(json, articleUrl).value, title)
      && Contains(Rendered(json, articleUrl).value, summary)
      && Contains(Rendered(json, articleUrl).value, term)
      && Contains(Rendered(json, articleUrl).value, definition)
      && Contains(Rendered(json, articleUrl).value, articleUrl)
  {
    var item := Obj([Member("term", Str(term)), Member("definition", Str(definition))]);
    var json := map["title" := Str(title), "summary" := Str(summary), "meaning" := Str(meaning),
                    "importance" := Str(importance), "impact_on_us" := Str(impactOnUs),
                    "food_for_thought" := Str(foodForThought), "key_terms" := Arr([item])];
    assert AllPresent(RequiredKeys, json) by {
      forall i | 0 <= i < |RequiredKeys| ensures RequiredKeys[i] in json {
      }
    }
    assert Get(item.members, "term") == Some(Str(term));
    assert |"term"| != |"definition"|;
    assert item.members[1..] == [Member("definition", Str(definition))];
    assert Get(item.members, "definition") == Some(Str(definition));
    assert TermFragment(item).Ok?;
    assert Fragments([item]).Ok? by {
      assert [item][..0] == [];
    }
    WellFormedResponseRendered(json, articleUrl);
    var doc := Rendered(json, articleUrl).value;
    RenderedEmbedsFields(json, articleUrl, doc);
    RenderedEmbedsKeyTerms(json, articleUrl, doc, [item], 0);
  }
}
