/** Content planning (`ContentPlanner.create_plan` in app/planner/planner.py),
    from the model's reply onward: cut the reply from its first `{` to its last
    `}`, parse that as JSON, and fall back to a fixed three-section plan when
    there is nothing to cut or the cut does not parse. */
module Planner {
  import opened Results
  import Text

  /** A JSON value as `json.loads` returns it; an object keeps its members in
      document order. */
  datatype Json =
    | JNull
    | JBool(b: bool)
    | JNumber(literal: string)
    | JString(text: string)
    | JArray(items: seq<Json>)
    | JObject(members: seq<(string, Json)>)

  /** `json.loads` as an oracle: `Some(v)` for a document it accepts, `None`
      where it raises. */
  type Parser = string -> Option<Json>

  /** The value a key maps to in a member list; as in a Python dict built
      from the list, a later member overrides an earlier one. */
  function Get(members: seq<(string, Json)>, key: string): Option<Json> {
    if members == [] then None
    else if members[|members| - 1].0 == key then Some(members[|members| - 1].1)
    else Get(members[..|members| - 1], key)
  }

  /** A key held by exactly one member maps to that member's value. */
  lemma {:induction false} GetUnique(members: seq<(string, Json)>, key: string, i: nat)
    requires i < |members| && members[i].0 == key
    requires forall j :: 0 <= j < |members| && j != i ==> members[j].0 != key
    ensures Get(members, key) == Some(members[i].1)
  {
    if i < |members| - 1 {
      var front := members[..|members| - 1];
      assert front[i] == members[i];
      GetUnique(front, key, i);
    }
  }

  /** A key held by no member maps to nothing. */
  lemma {:induction false} GetAbsent(members: seq<(string, Json)>, key: string)
    requires forall j :: 0 <= j < |members| ==> members[j].0 != key
    ensures Get(members, key) == None
  {
    if members != [] {
      GetAbsent(members[..|members| - 1], key);
    }
  }

  /** `obj.get(key)` on an object; nothing for any other value. */
  function Field(j: Json, key: string): Option<Json> {
    if j.JObject? then Get(j.members, key) else None
  }

  /** The keys of an object, in order. */
  function KeysOf(j: Json): seq<string> {
    if j.JObject? then seq(|j.members|, i requires 0 <= i < |j.members| => j.members[i].0) else []
  }

  /** The headings of a list of outline sections, when every section is an
      object with a string `heading`. */
  function SectionHeadings(sections: seq<Json>): Option<seq<string>> {
    if sections == [] then Some([])
    else
      match (Field(sections[0], "heading"), SectionHeadings(sections[1..]))
      case (Some(JString(h)), Some(rest)) => Some([h] + rest)
      case _ => None
  }

  /** The headings of a plan's `outline`, in order, when it is well formed. */
  function Headings(plan: Json): Option<seq<string>> {
    match Field(plan, "outline")
    case Some(JArray(sections)) => SectionHeadings(sections)
    case _ => None
  }

  /** The outline sections of a plan, or none when `outline` is not a list. */
  function Sections(plan: Json): seq<Json> {
    match Field(plan, "outline")
    case Some(JArray(sections)) => sections
    case _ => []
  }

  // ---------------------------------------------------------------------
  // The fallback plan

  /** One section of the fallback outline: a heading, no subheadings, a note. */
  function FallbackSection(heading: string, notes: string): Json {
    JObject([("heading", JString(heading)), ("subheadings", JArray([])), ("notes", JString(notes))])
  }

  lemma FallbackSectionFields(heading: string, notes: string)
    ensures Field(FallbackSection(heading, notes), "heading") == Some(JString(heading))
    ensures Field(FallbackSection(heading, notes), "subheadings") == Some(JArray([]))
  {
    var members := FallbackSection(heading, notes).members;
    GetUnique(members, "heading", 0);
    GetUnique(members, "subheadings", 1);
  }

  lemma FallbackHeadings(outline: seq<Json>)
    requires outline == [
      FallbackSection("Introduction", "Introduce the topic"),
      FallbackSection("Main Concepts", "Explain core concepts"),
      FallbackSection("Conclusion", "Summarize")
    ]
    ensures SectionHeadings(outline) == Some(["Introduction", "Main Concepts", "Conclusion"])
  {
    FallbackSectionFields("Introduction", "Introduce the topic");
    FallbackSectionFields("Main Concepts", "Explain core concepts");
    FallbackSectionFields("Conclusion", "Summarize");
    var o1 := outline[1..];
    var o2 := o1[1..];
    assert o2[0] == FallbackSection("Conclusion", "Summarize") && o2[1..] == [];
    assert SectionHeadings(o2[1..]) == Some([]);
    assert ["Conclusion"] + [] == ["Conclusion"];
    assert SectionHeadings(o2) == Some(["Conclusion"]);
    assert o1[0] == FallbackSection("Main Concepts", "Explain core concepts") && o1[1..] == o2;
    assert ["Main Concepts"] + ["Conclusion"] == ["Main Concepts", "Conclusion"];
    assert SectionHeadings(o1) == Some(["Main Concepts", "Conclusion"]);
    assert outline[0] == FallbackSection("Introduction", "Introduce the topic");
    assert ["Introduction"] + ["Main Concepts", "Conclusion"] == ["Introduction", "Main Concepts", "Conclusion"];
  }

  /** The outline of the fallback plan: Introduction, Main Concepts and
      Conclusion, in that order, none with subheadings. */
  function FallbackOutline(): (r: seq<Json>)
    ensures SectionHeadings(r) == Some(["Introduction", "Main Concepts", "Conclusion"])
    ensures |r| == 3
    ensures forall i :: 0 <= i < |r| ==> Field(r[i], "subheadings") == Some(JArray([]))
  {
    var outline := [
      FallbackSection("Introduction", "Introduce the topic"),
      FallbackSection("Main Concepts", "Explain core concepts"),
      FallbackSection("Conclusion", "Summarize")
    ];
    FallbackSectionFields("Introduction", "Introduce the topic");
    FallbackSectionFields("Main Concepts", "Explain core concepts");
    FallbackSectionFields("Conclusion", "Summarize");
    FallbackHeadings(outline);
    outline
  }

  /** The plan `create_plan` returns when the reply yields no JSON. It has the
      four keys below and nothing else (in particular no `target_audience`);
      its outline is Introduction, Main Concepts, Conclusion, each without
      subheadings. */
  function FallbackPlan(keyword: string): (r: Json)
    ensures KeysOf(r) == ["main_topic", "search_intent", "outline", "secondary_keywords"]
    ensures Field(r, "main_topic") == Some(JString("Comprehensive Guide to " + keyword))
    ensures Field(r, "search_intent") == Some(JString("Informational"))
    ensures Field(r, "secondary_keywords") == Some(JArray([JString(keyword)]))
    ensures Field(r, "target_audience") == None
    ensures Headings(r) == Some(["Introduction", "Main Concepts", "Conclusion"])
    ensures |Sections(r)| == 3
    ensures forall i :: 0 <= i < |Sections(r)| ==> Field(Sections(r)[i], "subheadings") == Some(JArray([]))
  {
    var outline := FallbackOutline();
    var members := [
      ("main_topic", JString("Comprehensive Guide to " + keyword)),
      ("search_intent", JString("Informational")),
      ("outline", JArray(outline)),
      ("secondary_keywords", JArray([JString(keyword)]))
    ];
    GetUnique(members, "main_topic", 0);
    GetUnique(members, "search_intent", 1);
    GetUnique(members, "outline", 2);
    GetAbsent(members, "target_audience");
    JObject(members)
  }

  // ---------------------------------------------------------------------
  // Cutting the JSON out of the reply

  /** `reply[reply.find('{'):reply.rfind('}') + 1]`, or nothing when the
      guard `start != -1 and end != -1` fails. Since `end` is `rfind(...) + 1`,
      it is never -1: the guard fails exactly when the reply has no `{`. */
  function Candidate(reply: string): (r: Option<string>)
    ensures r.None? <==> '{' !in reply
    ensures r.Some? && '}' in reply && Text.Find(reply, '{') <= Text.RFind(reply, '}') ==>
      r.value == reply[Text.Find(reply, '{')..Text.RFind(reply, '}') + 1]
    ensures r.Some? && ('}' !in reply || Text.RFind(reply, '}') < Text.Find(reply, '{')) ==>
      r.value == []
  {
    var start := Text.Find(reply, '{');
    var end := Text.RFind(reply, '}') + 1;
    if start != -1 && end != -1 then Some(Text.Slice(reply, start, end)) else None
  }

  /** The parsed candidate, when there is one and the oracle accepts it. */
  function Extract(parse: Parser, reply: string): (r: Option<Json>)
    ensures r.Some? ==> Candidate(reply).Some? && parse(Candidate(reply).value) == r
    ensures Candidate(reply).Some? && parse(Candidate(reply).value).Some? ==> r.Some?
  {
    match Candidate(reply)
    case None => None
    case Some(c) => parse(c)
  }

  /** The `try`/`except` of `create_plan`: the parsed value, returned as it is
      without any check of its shape, or else the fallback plan. Every reply
      gives a plan; no parse failure escapes. */
  function PlanFromReply(parse: Parser, keyword: string, reply: string): (r: Json)
    ensures Extract(parse, reply).Some? ==> r == Extract(parse, reply).value
    ensures Extract(parse, reply).None? ==> r == FallbackPlan(keyword)
  {
    Extract(parse, reply).GetOr(FallbackPlan(keyword))
  }

  /** `create_plan` after the prompt is built: the provider's reply goes
      through `PlanFromReply`, but a provider error is raised outside the
      `try` and propagates unchanged. */
  function CreatePlan(parse: Parser, keyword: string, reply: Result<string, string>): (r: Result<Json, string>)
    ensures r.Failure? <==> reply.Failure?
    ensures r.Failure? ==> r.error == reply.error
    ensures r.Success? ==> r.value == PlanFromReply(parse, keyword, reply.value)
  {
    match reply
    case Failure(e) => Failure(e)
    case Success(text) => Success(PlanFromReply(parse, keyword, text))
  }

  // ---------------------------------------------------------------------
  // Locating braces

  /** A `c` with no `c` before it is where `find` stops. */
  lemma FindIs(s: string, c: char, k: nat)
    requires k < |s| && s[k] == c && c !in s[..k]
    ensures Text.Find(s, c) == k
  {
    assert s[..k + 1][k] == c;
  }

  /** A `c` with no `c` after it is where `rfind` stops. */
  lemma RFindIs(s: string, c: char, k: nat)
    requires k < |s| && s[k] == c && c !in s[k + 1..]
    ensures Text.RFind(s, c) == k
  {
    assert s[k..][0] == c;
  }

  // ---------------------------------------------------------------------
  // Properties of create_plan

  /** Prose around a single JSON object is ignored: with no `{` before the
      object and no `}` after it, the object is exactly what is parsed and
      returned. */
  lemma ObjectInProse(parse: Parser, keyword: string, before: string, body: string, after: string, v: Json)
    requires '{' !in before && '}' !in after
    requires body != [] && body[0] == '{' && body[|body| - 1] == '}'
    requires parse(body) == Some(v)
    ensures PlanFromReply(parse, keyword, before + body + after) == v
  {
    var s := before + body + after;
    var i := |before|;
    var j := |before| + |body| - 1;
    assert s[i] == '{' && s[..i] == before;
    FindIs(s, '{', i);
    assert s[j] == '}' && s[j + 1..] == after;
    RFindIs(s, '}', j);
    assert s[i..j + 1] == body;
  }

  /** A reply without `{` yields the fallback plan. */
  lemma NoBraceFallsBack(parse: Parser, keyword: string, reply: string)
    requires '{' !in reply
    ensures PlanFromReply(parse, keyword, reply) == FallbackPlan(keyword)
  {
  }

  /** With a `{` but no `}` after the first `{`, the slice is empty; since the
      empty string is not a JSON document, the fallback plan is returned. */
  lemma CrossedBracesFallBack(parse: Parser, keyword: string, reply: string)
    requires parse([]) == None
    requires '{' in reply
    requires '}' !in reply || Text.RFind(reply, '}') < Text.Find(reply, '{')
    ensures Candidate(reply) == Some([])
    ensures PlanFromReply(parse, keyword, reply) == FallbackPlan(keyword)
  {
  }

  /** The candidate, when not empty, runs from a `{` to a `}`: nothing
      outside it is handed to the parser. */
  lemma CandidateBraced(reply: string)
    requires Candidate(reply).Some? && Candidate(reply).value != []
    ensures var c := Candidate(reply).value;
      && c[0] == '{' && c[|c| - 1] == '}'
      && '{' !in reply[..Text.Find(reply, '{')]
      && '}' !in reply[Text.RFind(reply, '}') + 1..]
  {
  }

  // ---------------------------------------------------------------------
  // The snippet block of the prompt

  /** `"\n\n".join(research_data.get('snippets', []))`. */
  function SnippetBlock(snippets: Option<seq<string>>): (r: string)
    ensures snippets.None? || snippets == Some([]) ==> r == []
    ensures snippets.Some? && snippets.value != [] ==>
      |snippets.value[0]| <= |r| && r[..|snippets.value[0]|] == snippets.value[0]
  {
    var xs := snippets.GetOr([]);
    if xs == [] then Text.Join("\n\n", xs)
    else
      Text.JoinHead("\n\n", xs);
      Text.Join("\n\n", xs)
  }

  /** A missing `snippets` entry gives an empty block; otherwise the `i`-th
      snippet sits at its offset in the block, followed by a blank-line
      separator unless it is the last one, which ends the block. */
  lemma SnippetBlockLayout(snippets: Option<seq<string>>, i: nat)
    requires snippets.Some? ==> i < |snippets.value|
    ensures snippets.None? ==> SnippetBlock(snippets) == []
    ensures snippets.Some? ==>
      var xs, b, o := snippets.value, SnippetBlock(snippets), Text.Offset("\n\n", snippets.value, i);
      && o + |xs[i]| <= |b|
      && b[o..o + |xs[i]|] == xs[i]
      && (i + 1 < |xs| ==> o + |xs[i]| + 2 <= |b| && b[o + |xs[i]|..o + |xs[i]| + 2] == "\n\n")
      && (i + 1 == |xs| ==> o + |xs[i]| == |b|)
  {
    if snippets.Some? {
      var xs := snippets.value;
      Text.JoinPiece("\n\n", xs, i);
      if i + 1 < |xs| {
        Text.JoinSeparator("\n\n", xs, i);
      } else {
        Text.JoinLength("\n\n", xs);
      }
    }
  }
}
