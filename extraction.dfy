/**
 * `ExtractionService.extract_fields` (backend/app/services/extraction_service.py).
 *
 * For each requested field, in order, the loop builds a prompt holding a rule for the
 * field's data type, asks the document question-answering service, repairs the answer
 * of a "number" field, and accepts it as "High (Doc)" unless the call raised, the
 * answer says MISSING or it has no sources. Otherwise it searches the web for the
 * field's description and has the language model summarise the results, giving
 * "Medium (Web)", or gives up with "N/A" when either of those raises.
 *
 * The three external calls are oracles passed in as functions. Each is also given the
 * field's position, so that the same question may get different answers for different
 * fields, as a language model or the web may give.
 */
module Extraction {
  import opened Wrappers
  import opened Strings
  import opened NumberPattern
  import opened Schemas

  const NumberRule: string :=
    "Output ONLY the number. No currency symbols ($, \U{A5}), no commas, no text units. Example: 500000 not $500k."
  const DateRule: string := "Output ONLY the date in YYYY-MM-DD format."
  const BooleanRule: string := "Output ONLY 'True' or 'False'."
  const ExactValueRule: string := "Output ONLY the exact value string. Do not use full sentences."

  const MissingMarker: string := "MISSING"
  const HighDoc: string := "High (Doc)"
  const MediumWeb: string := "Medium (Web)"
  const NoConfidence: string := "None"
  const InternetSearch: string := "Internet Search"
  const NoSource: string := "None"
  const NotAvailable: string := "N/A"

  /**
   * What `rag_service.query_document` gives back: the answer and the list of source
   * documents, each given as the text Python prints for it; or an exception.
   */
  datatype RagReply = RagRaised | RagAnswer(answer: string, sources: seq<string>)

  /** The external services. `None` from a web call stands for an exception. */
  datatype Services = Services(
    // position, question, collection name
    queryDocument: (nat, string, string) -> RagReply,
    // position, query
    webSearch: (nat, string) -> Option<string>,
    // position, question, search results
    summarise: (nat, string, string) -> Option<string>)

  /** One call to an external service. */
  datatype Call =
    | QueryDocument(question: string, collection: string)
    | WebSearch(query: string)
    | Summarise(question: string, context: string)

  /** The rule for the data type: its own for "number", "date" and "boolean", the exact-value rule for anything else. */
  function TypeInstruction(dataType: string): (r: string)
    ensures r == NumberRule <==> dataType == "number"
    ensures r == DateRule <==> dataType == "date"
    ensures r == BooleanRule <==> dataType == "boolean"
    ensures r == ExactValueRule <==> dataType != "number" && dataType != "date" && dataType != "boolean"
  {
    if dataType == "number" then NumberRule
    else if dataType == "date" then DateRule
    else if dataType == "boolean" then BooleanRule
    else ExactValueRule
  }

  /** A request that leaves the data type out gets the exact-value rule. */
  lemma DefaultDataTypeRule()
    ensures TypeInstruction(DefaultDataType) == ExactValueRule
  {
    assert DefaultDataType[0] == 's';
  }

  /** The indentation the prompt's triple-quoted template carries on each line. */
  const Indent: string := "            "

  /** The prompt's text before the description. */
  const PromptHead: string := "\n" + Indent + "Task: Extract the value for the field described as: \""

  /** The prompt's text between the description and the data type's rule. */
  const PromptMiddle: string := "\"\n" + Indent + "\n" + Indent + "Rules:\n" + Indent + "1. "

  /** The prompt's text after the rule: the three fixed rules. */
  const PromptTail: string :=
    "\n"
    + Indent + "2. Do NOT explain your answer.\n"
    + Indent + "3. Do NOT mention \"According to the document\".\n"
    + Indent + "4. If the information is not found, output exactly \"MISSING\".\n"
    + Indent

  /** The prompt sent to the document service. */
  function QueryPrompt(description: string, typeInstruction: string): string
  {
    PromptHead + description + PromptMiddle + typeInstruction + PromptTail
  }

  function PromptFor(f: ExtractionField): string
  {
    QueryPrompt(f.description, TypeInstruction(f.dataType))
  }

  /**
   * The prompt quotes the description and the rule verbatim, each at a fixed place
   * after the template's text, and ends with the fixed rules.
   */
  lemma PromptQuotes(description: string, typeInstruction: string)
    ensures var r := QueryPrompt(description, typeInstruction);
            var m := |PromptHead| + |description| + |PromptMiddle|;
            && r[..|PromptHead|] == PromptHead
            && r[|PromptHead|..|PromptHead| + |description|] == description
            && r[|PromptHead| + |description|..m] == PromptMiddle
            && r[m..m + |typeInstruction|] == typeInstruction
            && r[m + |typeInstruction|..] == PromptTail
  {
  }

  /**
   * A prompt gives back its parts: two prompts for rules of the same length are equal
   * only for the same description and the same rule.
   */
  lemma PromptDetermines(d1: string, t1: string, d2: string, t2: string)
    requires |t1| == |t2|
    ensures QueryPrompt(d1, t1) == QueryPrompt(d2, t2) <==> d1 == d2 && t1 == t2
  {
    if QueryPrompt(d1, t1) == QueryPrompt(d2, t2) {
      PromptQuotes(d1, t1);
      PromptQuotes(d2, t2);
    }
  }

  /** Fields of the same data type with different descriptions get different prompts. */
  lemma PromptForDistinguishes(f: ExtractionField, g: ExtractionField)
    requires f.dataType == g.dataType
    ensures PromptFor(f) == PromptFor(g) <==> f.description == g.description
  {
    PromptDetermines(f.description, TypeInstruction(f.dataType), g.description, TypeInstruction(g.dataType));
  }

  /** `answer.replace(',', '')`. */
  function WithoutCommas(s: string): (r: string)
    ensures r == RemoveChar(s, ',')
  {
    ReplaceCharByNothing(s, ',');
    ReplaceAll(s, ",", "")
  }

  /**
   * The repair of a "number" answer: the first match of `-?\d*\.?\d+` in the answer
   * with its commas removed; the answer unchanged when nothing matches.
   */
  function RepairNumber(answer: string): string
  {
    var cleaned := WithoutCommas(answer);
    match FirstMatch(cleaned)
    case Some((a, b)) => cleaned[a..b]
    case None => answer
  }

  /**
   * With no number in the comma-free answer, the answer is kept as it is; otherwise it
   * becomes the leftmost number there, taken as long as the pattern allows.
   */
  lemma RepairNumberCorrect(answer: string)
    ensures !HasToken(WithoutCommas(answer)) ==> RepairNumber(answer) == answer
    ensures HasToken(WithoutCommas(answer)) ==>
              exists a: nat, b: nat :: LeftmostLongest(WithoutCommas(answer), a, b) && RepairNumber(answer) == WithoutCommas(answer)[a..b]
  {
    FirstMatchCorrect(WithoutCommas(answer));
  }

  lemma WithoutCommasExample(answer: string)
    requires answer == "$1,234.50 USD"
    ensures WithoutCommas(answer) == "$1234.50 USD"
  {
    assert answer == "$1" + [','] + "234.50 USD";
    RemoveCharOnce("$1", "234.50 USD", ',');
    assert "$1" + "234.50 USD" == "$1234.50 USD";
  }

  lemma DigitRunExample()
    ensures DigitRun("$1234.50 USD", 1) == 4 && DigitRun("$1234.50 USD", 6) == 2
  {
    var c := "$1234.50 USD";
    assert DigitRun(c, 5) == 0;
    assert DigitRun(c, 8) == 0;
  }

  lemma FirstMatchExample()
    ensures FirstMatch("$1234.50 USD") == Some((1, 8))
  {
    var c := "$1234.50 USD";
    DigitRunExample();
    assert MatchAt(c, 1) == Some(8);
    assert DigitRun(c, 0) == 0;
    assert MatchAt(c, 0).None?;
  }

  /** The comma is dropped before the search, and the currency sign and the unit are cut off. */
  lemma RepairNumberExample(answer: string)
    requires answer == "$1,234.50 USD"
    ensures RepairNumber(answer) == "1234.50"
  {
    WithoutCommasExample(answer);
    FirstMatchExample();
    assert "$1234.50 USD"[1..8] == "1234.50";
  }

  /** The stripped answer, repaired when the field is a "number". */
  function PostProcess(dataType: string, raw: string): string
  {
    var answer := Strip(raw);
    if dataType == "number" then RepairNumber(answer) else answer
  }

  /** The document answer is not accepted: it says MISSING, or nothing backs it. */
  predicate NeedsWebSearch(answer: string, sources: seq<string>)
  {
    Contains(answer, MissingMarker) || |sources| == 0
  }

  /** Python's `str(sources)` for a list whose elements print as `reprs`. */
  function ShowSources(reprs: seq<string>): string
  {
    "[" + Join(reprs, ", ") + "]"
  }

  /** The web fallback: the summary of the search results, or None when either call raised. */
  function WebAnswer(i: nat, description: string, svc: Services): Option<string>
  {
    match svc.webSearch(i, description)
    case None => None
    case Some(results) => svc.summarise(i, description, results)
  }

  /** The field at position `i` is answered from the documents. */
  predicate DocumentHit(i: nat, f: ExtractionField, collection: string, svc: Services)
  {
    var reply := svc.queryDocument(i, PromptFor(f), collection);
    reply.RagAnswer? && !NeedsWebSearch(PostProcess(f.dataType, reply.answer), reply.sources)
  }

  /** The result for the field at position `i`. */
  function ExtractOne(i: nat, f: ExtractionField, collection: string, svc: Services): (r: FieldResult)
    ensures r.key == f.key
    ensures r.confidence in {HighDoc, MediumWeb, NoConfidence}
    ensures r.confidence == HighDoc <==> DocumentHit(i, f, collection, svc)
    ensures r.confidence == HighDoc ==>
              var reply := svc.queryDocument(i, PromptFor(f), collection);
              && reply.RagAnswer?
              && |reply.sources| > 0
              && r.value == Text(PostProcess(f.dataType, reply.answer))
              && !Contains(r.value.text, MissingMarker)
              && r.source == ShowSources(reply.sources)
    ensures r.confidence == MediumWeb <==> !DocumentHit(i, f, collection, svc) && WebAnswer(i, f.description, svc).Some?
    ensures r.confidence == MediumWeb ==>
              r.value == Text(WebAnswer(i, f.description, svc).value) && r.source == InternetSearch
    ensures r.confidence == NoConfidence <==> !DocumentHit(i, f, collection, svc) && WebAnswer(i, f.description, svc).None?
    ensures r.confidence == NoConfidence ==> r.value == Text(NotAvailable) && r.source == NoSource
  {
    var reply := svc.queryDocument(i, PromptFor(f), collection);
    if DocumentHit(i, f, collection, svc) then
      FieldResult(f.key, Text(PostProcess(f.dataType, reply.answer)), ShowSources(reply.sources), HighDoc)
    else
      match WebAnswer(i, f.description, svc)
      case Some(w) => FieldResult(f.key, Text(w), InternetSearch, MediumWeb)
      case None => FieldResult(f.key, Text(NotAvailable), NoSource, NoConfidence)
  }

  /** The calls of the web fallback: the search, then the summary when the search returned. */
  function FallbackCalls(i: nat, description: string, svc: Services): (r: seq<Call>)
    ensures 0 < |r| <= 2 && r[0] == WebSearch(description)
    ensures |r| == 2 <==> svc.webSearch(i, description).Some?
    ensures |r| == 2 ==> r[1] == Summarise(description, svc.webSearch(i, description).value)
  {
    match svc.webSearch(i, description)
    case None => [WebSearch(description)]
    case Some(results) => [WebSearch(description), Summarise(description, results)]
  }

  /**
   * The calls made for the field at position `i`, in order: the document query, and
   * the web fallback exactly when the documents did not answer.
   */
  function CallsFor(i: nat, f: ExtractionField, collection: string, svc: Services): (r: seq<Call>)
    ensures |r| > 0 && r[0] == QueryDocument(PromptFor(f), collection)
    ensures DocumentHit(i, f, collection, svc) <==> |r| == 1
    ensures !DocumentHit(i, f, collection, svc) ==> r[1..] == FallbackCalls(i, f.description, svc)
  {
    var query := [QueryDocument(PromptFor(f), collection)];
    if DocumentHit(i, f, collection, svc) then query
    else query + FallbackCalls(i, f.description, svc)
  }

  /** The calls made for the first `n` fields. */
  function CallsUpTo(fields: seq<ExtractionField>, n: nat, collection: string, svc: Services): seq<Call>
    requires n <= |fields|
  {
    if n == 0 then [] else CallsUpTo(fields, n - 1, collection, svc) + CallsFor(n - 1, fields[n - 1], collection, svc)
  }

  /** `g` applied to each of the first `n` elements of `xs` together with its position. */
  function MapIndexed<A, B>(g: (nat, A) -> B, xs: seq<A>, n: nat): (r: seq<B>)
    requires n <= |xs|
    ensures |r| == n
  {
    if n == 0 then [] else MapIndexed(g, xs, n - 1) + [g(n - 1, xs[n - 1])]
  }

  lemma {:induction false} MapIndexedAt<A, B>(g: (nat, A) -> B, xs: seq<A>, n: nat)
    requires n <= |xs|
    ensures forall k :: 0 <= k < n ==> MapIndexed(g, xs, n)[k] == g(k, xs[k])
  {
    if n > 0 {
      MapIndexedAt(g, xs, n - 1);
    }
  }

  /** The per-field step of the loop, as a function of the position and the field. */
  function Extractor(collection: string, svc: Services): (nat, ExtractionField) -> FieldResult
  {
    (k: nat, f: ExtractionField) => ExtractOne(k, f, collection, svc)
  }

  /**
   * `extract_fields`: one result per field, in order, and the calls it makes. Every
   * field first goes to the document service; a field answered there is appended and
   * the loop moves on; any other field goes to the web search.
   */
  method ExtractFields(fields: seq<ExtractionField>, collection: string, svc: Services)
    returns (results: seq<FieldResult>, calls: seq<Call>)
    ensures |results| == |fields|
    ensures forall i :: 0 <= i < |fields| ==> results[i] == ExtractOne(i, fields[i], collection, svc)
    ensures calls == CallsUpTo(fields, |fields|, collection, svc)
  {
    results, calls := [], [];
    for i := 0 to |fields|
      invariant results == MapIndexed(Extractor(collection, svc), fields, i)
      invariant calls == CallsUpTo(fields, i, collection, svc)
    {
      var result, fieldCalls := ExtractField(i, fields[i], collection, svc);
      results := results + [result];
      calls := calls + fieldCalls;
    }
    MapIndexedAt(Extractor(collection, svc), fields, |fields|);
  }

  /**
   * One pass of the loop in `extract_fields`, for the field at position `i`; a
   * `continue` of the loop is a `return` here.
   */
  method ExtractField(i: nat, field: ExtractionField, collection: string, svc: Services)
    returns (result: FieldResult, calls: seq<Call>)
    ensures result == ExtractOne(i, field, collection, svc)
    ensures calls == CallsFor(i, field, collection, svc)
  {
    var typeInstruction := TypeInstruction(field.dataType);
    var queryPrompt := QueryPrompt(field.description, typeInstruction);

    // Stage 1: the indexed documents.
    calls := [QueryDocument(queryPrompt, collection)];
    var reply := svc.queryDocument(i, queryPrompt, collection);
    if reply.RagAnswer? {
      var answer := Strip(reply.answer);
      var sources := reply.sources;
      if field.dataType == "number" {
        var cleaned := WithoutCommas(answer);
        var numericMatch := FirstMatch(cleaned);
        if numericMatch.Some? {
          answer := cleaned[numericMatch.value.0..numericMatch.value.1];
        }
      }
      var needsWebSearch := Contains(answer, MissingMarker) || |sources| == 0;
      if !needsWebSearch {
        result := FieldResult(field.key, Text(answer), ShowSources(sources), HighDoc);
        return;
      }
    }
    assert !DocumentHit(i, field, collection, svc);

    // Stage 2: the web search fallback.
    calls := calls + [WebSearch(field.description)];
    var searchResults := svc.webSearch(i, field.description);
    if searchResults.Some? {
      calls := calls + [Summarise(field.description, searchResults.value)];
      var webAnswer := svc.summarise(i, field.description, searchResults.value);
      if webAnswer.Some? {
        result := FieldResult(field.key, Text(webAnswer.value), InternetSearch, MediumWeb);
        return;
      }
    }
    result := FieldResult(field.key, Text(NotAvailable), NoSource, NoConfidence);
  }
}
