/** Web research (`ResearchEngine.search` in app/research/engine.py) after the
    search provider has answered: each record the provider yields becomes an
    entry of title, link and text, and the entries are laid out as three
    parallel lists plus the raw list. A provider failure is swallowed, and the
    entries gathered before it are kept. */
module Research {

  /** One search hit as the provider yields it: field names to text. */
  type Record = map<string, string>

  /** `r.get(key, '')`. */
  function FieldOr(r: Record, key: string): string {
    if key in r then r[key] else ""
  }

  /** The dict appended to `results` for each hit. */
  datatype Entry = Entry(title: string, href: string, body: string)

  /** The entry made from one record: its `title`, `href` and `body`, each
      the empty string when the record lacks it. */
  function EntryOf(r: Record): (e: Entry)
    ensures "title" in r ==> e.title == r["title"]
    ensures "href" in r ==> e.href == r["href"]
    ensures "body" in r ==> e.body == r["body"]
    ensures "title" !in r ==> e.title == ""
    ensures "href" !in r ==> e.href == ""
    ensures "body" !in r ==> e.body == ""
  {
    Entry(FieldOr(r, "title"), FieldOr(r, "href"), FieldOr(r, "body"))
  }

  /** The record holding exactly the three fields of an entry. */
  function RecordOf(e: Entry): Record {
    map["title" := e.title, "href" := e.href, "body" := e.body]
  }

  /** What asking the provider produced. */
  datatype SearchReply =
      /** `DDGS()` or `ddgs.text(...)` raised before anything was yielded. */
    | Raised
      /** `ddgs.text(...)` returned `None` or an empty list. */
    | Falsy
      /** The records yielded, in order; `failed` when an exception ended the
          iteration (or leaving the `with` block) afterwards. */
    | Stream(records: seq<Record>, failed: bool)

  /** The records that reach `results.append` before the loop stops. */
  function Delivered(reply: SearchReply): seq<Record> {
    match reply
    case Stream(records, _) => records
    case _ => []
  }

  /** The dict `search` returns. */
  datatype ResearchData = ResearchData(sources: seq<string>, snippets: seq<string>,
                                       titles: seq<string>, raw: seq<Entry>)

  const NoResearch := ResearchData([], [], [], [])

  /** The three lists are projections of `raw`: same length, same order. */
  predicate Consistent(d: ResearchData) {
    && |d.sources| == |d.raw| && |d.snippets| == |d.raw| && |d.titles| == |d.raw|
    && (forall i :: 0 <= i < |d.raw| ==>
          && d.sources[i] == d.raw[i].href
          && d.snippets[i] == d.raw[i].body
          && d.titles[i] == d.raw[i].title)
  }

  /** The entries of a sequence of records, appended one at a time. */
  function Entries(rs: seq<Record>): (es: seq<Entry>)
    ensures |es| == |rs|
    ensures forall i :: 0 <= i < |rs| ==> es[i] == EntryOf(rs[i])
  {
    if rs == [] then [] else Entries(rs[..|rs| - 1]) + [EntryOf(rs[|rs| - 1])]
  }

  /** The three list comprehensions of the returned dict. */
  function Shape(results: seq<Entry>): (d: ResearchData)
    ensures Consistent(d) && d.raw == results
  {
    ResearchData(
      seq(|results|, i requires 0 <= i < |results| => results[i].href),
      seq(|results|, i requires 0 <= i < |results| => results[i].body),
      seq(|results|, i requires 0 <= i < |results| => results[i].title),
      results)
  }

  /** The three lists are determined by `raw`: consistent data is its shape. */
  lemma ShapeDetermined(d: ResearchData)
    requires Consistent(d)
    ensures d == Shape(d.raw)
  {
    var e := Shape(d.raw);
    assert d.sources == e.sources && d.snippets == e.snippets && d.titles == e.titles;
  }

  /** `search`: never fails; the entries are those of the delivered records,
      in delivery order, and the three lists match them index by index. */
  method Search(reply: SearchReply) returns (data: ResearchData)
    ensures Consistent(data)
    ensures data.raw == Entries(Delivered(reply))
    ensures |data.raw| == |Delivered(reply)|
    ensures forall i :: 0 <= i < |Delivered(reply)| ==>
      && data.titles[i] == FieldOr(Delivered(reply)[i], "title")
      && data.sources[i] == FieldOr(Delivered(reply)[i], "href")
      && data.snippets[i] == FieldOr(Delivered(reply)[i], "body")
    ensures reply.Raised? || reply.Falsy? ==> data == NoResearch
    ensures data == SearchResult(reply)
  {
    var results: seq<Entry> := [];
    match reply {
      case Stream(records, _) =>
        var i := 0;
        while i < |records|
          invariant 0 <= i <= |records|
          invariant results == Entries(records[..i])
        {
          assert records[..i + 1][..i] == records[..i];
          results := results + [EntryOf(records[i])];
          i := i + 1;
        }
        assert records[..|records|] == records;
      case _ =>
    }
    var sources, snippets, titles := [], [], [];
    var j := 0;
    while j < |results|
      invariant 0 <= j <= |results|
      invariant |sources| == j && |snippets| == j && |titles| == j
      invariant forall k :: 0 <= k < j ==>
        sources[k] == results[k].href && snippets[k] == results[k].body && titles[k] == results[k].title
    {
      sources := sources + [results[j].href];
      snippets := snippets + [results[j].body];
      titles := titles + [results[j].title];
      j := j + 1;
    }
    data := ResearchData(sources, snippets, titles, results);
    ShapeDetermined(data);
  }

  /** The same result as a function of the reply. */
  function SearchResult(reply: SearchReply): (d: ResearchData)
    ensures Consistent(d)
    ensures |d.raw| == |Delivered(reply)|
    ensures forall i :: 0 <= i < |d.raw| ==> d.raw[i] == EntryOf(Delivered(reply)[i])
    ensures reply.Raised? || reply.Falsy? ==> d == NoResearch
  {
    Shape(Entries(Delivered(reply)))
  }

  // ---------------------------------------------------------------------
  // Properties

  /** Rebuilding a record from an entry and reading it again gives the entry back. */
  lemma EntryRoundTrip(e: Entry)
    ensures EntryOf(RecordOf(e)) == e
  {
  }

  /** Fields other than `title`, `href` and `body` play no part. */
  lemma EntryIgnoresOtherFields(r: Record, s: Record)
    requires forall k :: k in {"title", "href", "body"} ==> (k in r <==> k in s)
    requires forall k :: k in {"title", "href", "body"} && k in r ==> r[k] == s[k]
    ensures EntryOf(r) == EntryOf(s)
  {
    assert "title" in r <==> "title" in s;
    assert "href" in r <==> "href" in s;
    assert "body" in r <==> "body" in s;
  }

  /** Entries are made one record at a time: those of a prefix are a prefix. */
  lemma {:induction false} EntriesPrefix(rs: seq<Record>, k: nat)
    requires k <= |rs|
    ensures Entries(rs[..k]) == Entries(rs)[..k]
  {
    var a := Entries(rs[..k]);
    var b := Entries(rs)[..k];
    assert |a| == |b|;
    forall i | 0 <= i < k
      ensures a[i] == b[i]
    {
      assert rs[..k][i] == rs[i];
    }
  }

  /** A provider that fails after `k` records leaves exactly what a complete
      run shows for its first `k` records: the failure keeps the prefix. */
  lemma FailureKeepsPrefix(rs: seq<Record>, k: nat)
    requires k <= |rs|
    ensures var cut, full := SearchResult(Stream(rs[..k], true)), SearchResult(Stream(rs, false));
      && cut.raw == full.raw[..k]
      && cut.sources == full.sources[..k]
      && cut.snippets == full.snippets[..k]
      && cut.titles == full.titles[..k]
  {
    EntriesPrefix(rs, k);
    ShapePrefix(Entries(rs), k);
  }

  /** Laying out a prefix of the entries gives prefixes of the lists. */
  lemma ShapePrefix(es: seq<Entry>, k: nat)
    requires k <= |es|
    ensures var cut, full := Shape(es[..k]), Shape(es);
      && cut.sources == full.sources[..k]
      && cut.snippets == full.snippets[..k]
      && cut.titles == full.titles[..k]
  {
    var cut, full := Shape(es[..k]), Shape(es);
    assert forall i :: 0 <= i < k ==> es[..k][i] == es[i];
  }

  /** A failure before the first record, like a raised or falsy reply, gives
      the empty result. */
  lemma EarlyFailureIsEmpty(reply: SearchReply)
    requires reply == Raised || reply == Falsy || reply == Stream([], true)
    ensures SearchResult(reply) == NoResearch
  {
  }
}
