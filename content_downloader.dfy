/** The content downloader: finds an article's PubMed Central id through
    elink, assembles plain full text from the PMC efetch XML, fetches the
    PDF, and saves what it got under the corpus directories. It has its own
    rate limiter, separate from the searcher's. */
module ContentDownloader {
  import opened Common
  import opened XmlTree
  import opened RateLimit

  // =====================================================================
  // _extract_text_from_element
  // =====================================================================

  /** Python truth of an element's `text` or `tail`. */
  predicate Truthy(t: Option<string>) {
    t.Some? && t.value != []
  }

  /** The element's own text, each child's non-empty text and each child's
      tail, in document order, joined by spaces and stripped. */
  function ExtractText(e: Element): (r: string)
    ensures Stripped(r)
    decreases e, 1
  {
    Strip(Join(" ", TextParts(e)))
  }

  function TextParts(e: Element): seq<string>
    decreases e, 0
  {
    (if Truthy(e.text) then [e.text.value] else []) + ChildTextParts(e.children)
  }

  function ChildTextParts(cs: seq<Element>): seq<string>
    decreases cs
  {
    if cs == [] then []
    else
      var c := cs[0];
      var t := ExtractText(c);
      (if t != [] then [t] else []) + (if Truthy(c.tail) then [c.tail.value] else []) +
      ChildTextParts(cs[1..])
  }

  /** A leaf gives its stripped text, or nothing without text. */
  lemma LeafText(e: Element)
    requires e.children == []
    ensures ExtractText(e) == if Truthy(e.text) then Strip(e.text.value) else ""
  {
    assert ChildTextParts(e.children) == [];
  }

  lemma {:induction false} ChildTextPartsHas(cs: seq<Element>, c: Element)
    requires c in cs && ExtractText(c) != []
    ensures ExtractText(c) in ChildTextParts(cs)
  {
    if cs[0] != c {
      ChildTextPartsHas(cs[1..], c);
    }
  }

  /** No child's text is lost: the text of every child with any appears,
      intact, in the parent's. */
  lemma ChildTextKept(e: Element, c: Element)
    requires c in e.children && ExtractText(c) != []
    ensures Contains(ExtractText(e), ExtractText(c))
  {
    var w := ExtractText(c);
    ChildTextPartsHas(e.children, c);
    assert w in TextParts(e);
    JoinContains(" ", TextParts(e), w);
    StripContains(Join(" ", TextParts(e)), w);
  }

  // =====================================================================
  // _get_pmc_id: the link selection
  // =====================================================================

  /** A `LinkSetDb` whose first `DbTo` child has the text `pmc`. */
  predicate IsPmcDb(db: Element) {
    var dbTo := FindChild(db, "DbTo");
    dbTo.Some? && dbTo.value.text == Some("pmc")
  }

  /** The `Link/Id` elements of a `pmc` link set, else none. */
  function LinksOf(db: Element): seq<Element> {
    if IsPmcDb(db) then FindAllPath(db, "Link", "Id") else []
  }

  /** The candidate ids under one `LinkSet`, in order. */
  function SetLinks(linkSet: Element): seq<Element> {
    FlatMap(ChildrenTagged(linkSet, "LinkSetDb"), LinksOf)
  }

  /** Every candidate id of the document, in document order. */
  function PmcCandidates(root: Element): seq<Element> {
    FlatMap(FindAllDeep(root, "LinkSet"), SetLinks)
  }

  /** The link selection: the text of the first candidate, if any. */
  function FirstPmcId(root: Element): Option<string> {
    var cands := PmcCandidates(root);
    if cands == [] then None else cands[0].text
  }

  /** Every candidate is an `Id` under a `Link` of a `pmc` link set inside a
      `LinkSet` of the document. */
  lemma CandidateSound(root: Element, x: Element)
    requires x in PmcCandidates(root)
    ensures exists ls, db, link ::
      ls in Descendants(root) && ls.tag == "LinkSet" &&
      db in ls.children && db.tag == "LinkSetDb" && IsPmcDb(db) &&
      link in db.children && link.tag == "Link" && x in link.children && x.tag == "Id"
  {
    var sets := FindAllDeep(root, "LinkSet");
    FlatMapMember(sets, SetLinks, x);
    var k :| 0 <= k < |sets| && x in SetLinks(sets[k]);
    var ls := sets[k];
    assert ls in sets;
    TaggedMember(Descendants(root), "LinkSet", ls);
    var dbs := ChildrenTagged(ls, "LinkSetDb");
    FlatMapMember(dbs, LinksOf, x);
    var j :| 0 <= j < |dbs| && x in LinksOf(dbs[j]);
    var db := dbs[j];
    assert db in dbs;
    TaggedMember(ls.children, "LinkSetDb", db);
    LinkIdSound(db, x);
  }

  lemma LinkIdSound(db: Element, x: Element)
    requires x in LinksOf(db)
    ensures IsPmcDb(db)
    ensures exists link :: link in db.children && link.tag == "Link" && x in link.children && x.tag == "Id"
  {
    var links := ChildrenTagged(db, "Link");
    var ss := seq(|links|, m requires 0 <= m < |links| => ChildrenTagged(links[m], "Id"));
    FlattenMember(ss, x);
    var m :| 0 <= m < |ss| && x in ss[m];
    var link := links[m];
    assert link in links;
    TaggedMember(db.children, "Link", link);
    TaggedMember(link.children, "Id", x);
  }

  /** The nested loops of `_get_pmc_id` over the parsed elink document,
      returning on the first `Link/Id` of a `pmc` link set. */
  method FindPmcId(root: Element) returns (pmcId: Option<string>)
    ensures pmcId == FirstPmcId(root)
  {
    var linkSets := FindAllDeep(root, "LinkSet");
    for i := 0 to |linkSets|
      invariant FlatMap(linkSets[..i], SetLinks) == []
    {
      var found, link := FirstSetLink(linkSets[i]);
      if found {
        FlatMapFirst(linkSets, SetLinks, i);
        return link.text;
      }
      FlatMapUpTo(linkSets, SetLinks, i);
    }
    assert linkSets[..|linkSets|] == linkSets;
    return None;
  }

  /** The inner loops of `_get_pmc_id` over one `LinkSet`: its first candidate id. */
  method FirstSetLink(linkSet: Element) returns (found: bool, link: Element)
    ensures found <==> SetLinks(linkSet) != []
    ensures found ==> link == SetLinks(linkSet)[0]
  {
    var linkSetDbs := ChildrenTagged(linkSet, "LinkSetDb");
    for j := 0 to |linkSetDbs|
      invariant FlatMap(linkSetDbs[..j], LinksOf) == []
    {
      var links := LinksOf(linkSetDbs[j]);
      if |links| > 0 {
        // The inner `for link in ...: return link.text` returns on its first pass.
        FlatMapFirst(linkSetDbs, LinksOf, j);
        return true, links[0];
      }
      FlatMapUpTo(linkSetDbs, LinksOf, j);
    }
    assert linkSetDbs[..|linkSetDbs|] == linkSetDbs;
    return false, linkSet;
  }

  /** `_get_pmc_id` after the request: request and XML errors give `None`,
      anything else escapes. */
  function PmcIdResult(reply: Reply<Element>): Outcome<Option<string>> {
    match reply
    case Answer(root) => Done(FirstPmcId(root))
    case RequestFailed => Done(None)
    case MalformedXml => Done(None)
    case Raised => Escaped
  }

  /** The PMC id `download_fulltext`/`download_pdf` go on with: a truthy one. */
  function UsableId(r: Outcome<Option<string>>): Option<string> {
    if r.Done? && r.value.Some? && r.value.value != [] then r.value else None
  }

  // =====================================================================
  // _download_pmc_fulltext: the text assembly
  // =====================================================================

  function TitlePart(root: Element): seq<string> {
    var titleElem := FindDeep(root, "article-title");
    if titleElem.None? then []
    else ["TITLE: " + (if titleElem.value.text.Some? then titleElem.value.text.value else "")]
  }

  /** The part for one abstract: labelled, or none when it has no text. */
  function AbstractPart(a: Element): seq<string> {
    var t := ExtractText(a);
    if t != [] then ["ABSTRACT: " + t] else []
  }

  function AbstractParts(abstracts: seq<Element>): seq<string> {
    FlatMap(abstracts, AbstractPart)
  }

  /** Every abstract part is a labelled non-empty text, and the text of every
      abstract that has any is there. */
  lemma AbstractPartsMeaning(abstracts: seq<Element>)
    ensures forall p :: p in AbstractParts(abstracts) ==>
      exists k :: 0 <= k < |abstracts| && ExtractText(abstracts[k]) != [] && p == "ABSTRACT: " + ExtractText(abstracts[k])
    ensures forall k :: 0 <= k < |abstracts| && ExtractText(abstracts[k]) != [] ==>
      "ABSTRACT: " + ExtractText(abstracts[k]) in AbstractParts(abstracts)
  {
    forall p | p in AbstractParts(abstracts)
      ensures exists k :: 0 <= k < |abstracts| && ExtractText(abstracts[k]) != [] && p == "ABSTRACT: " + ExtractText(abstracts[k])
    {
      FlatMapMember(abstracts, AbstractPart, p);
    }
    forall k | 0 <= k < |abstracts| && ExtractText(abstracts[k]) != []
      ensures "ABSTRACT: " + ExtractText(abstracts[k]) in AbstractParts(abstracts)
    {
      FlatMapHas(abstracts, AbstractPart, k, "ABSTRACT: " + ExtractText(abstracts[k]));
    }
  }

  /** The part for one section: none when it has no text; otherwise labelled
      with its upper-cased `title` child, or `SECTION` without one. A title
      element without text makes `.upper()` raise (`None`). */
  function SectionPart(sec: Element): Option<seq<string>> {
    var t := ExtractText(sec);
    if t == [] then Some([])
    else
      var titleElem := FindChild(sec, "title");
      var sectionTitle := if titleElem.Some? then titleElem.value.text else Some("SECTION");
      if sectionTitle.None? then None else Some([Upper(sectionTitle.value) + ": " + t])
  }

  function SectionParts(secs: seq<Element>): Option<seq<string>> {
    Collect(secs, SectionPart)
  }

  /** The assembly raises exactly when some section with text has a `title`
      child without text. */
  lemma SectionPartsRaise(secs: seq<Element>)
    ensures SectionParts(secs).None? <==>
      exists k :: 0 <= k < |secs| && ExtractText(secs[k]) != [] &&
        FindChild(secs[k], "title").Some? && FindChild(secs[k], "title").value.text.None?
  {
    CollectFails(secs, SectionPart);
  }

  /** The full text of a PMC article document; `None` when it is too short
      (under 100 characters once stripped) or when assembling it raises. */
  function FullTextOf(root: Element): Option<string> {
    var secs := SectionParts(FindAllDeepDeep(root, "body", "sec"));
    if secs.None? then None
    else
      var fullText := Join("\n\n", TitlePart(root) + AbstractParts(FindAllDeep(root, "abstract")) + secs.value);
      if |Strip(fullText)| < 100 then None else Some(fullText)
  }

  /** A section with text whose `title` child has no text leaves no full
      text at all. */
  lemma FullTextRaises(root: Element, sec: Element)
    requires sec in FindAllDeepDeep(root, "body", "sec") && ExtractText(sec) != []
    requires FindChild(sec, "title").Some? && FindChild(sec, "title").value.text.None?
    ensures FullTextOf(root).None?
  {
    var secs := FindAllDeepDeep(root, "body", "sec");
    var k :| 0 <= k < |secs| && secs[k] == sec;
    SectionPartsRaise(secs);
  }

  /** The labelled text of every abstract with any text is in the full text. */
  lemma FullTextKeepsAbstract(root: Element, k: nat)
    requires FullTextOf(root).Some?
    requires k < |FindAllDeep(root, "abstract")| && ExtractText(FindAllDeep(root, "abstract")[k]) != []
    ensures Contains(FullTextOf(root).value, "ABSTRACT: " + ExtractText(FindAllDeep(root, "abstract")[k]))
  {
    var abstracts := FindAllDeep(root, "abstract");
    var w := "ABSTRACT: " + ExtractText(abstracts[k]);
    AbstractPartsMeaning(abstracts);
    var parts := TitlePart(root) + AbstractParts(abstracts) + SectionParts(FindAllDeepDeep(root, "body", "sec")).value;
    assert w in parts;
    JoinContains("\n\n", parts, w);
  }

  /** The abstract loop of `_download_pmc_fulltext`. */
  method AbstractLoop(abstracts: seq<Element>) returns (parts: seq<string>)
    ensures parts == AbstractParts(abstracts)
  {
    parts := [];
    for i := 0 to |abstracts|
      invariant parts == FlatMap(abstracts[..i], AbstractPart)
    {
      var abstractText := ExtractText(abstracts[i]);
      assert abstracts[..i + 1][..i] == abstracts[..i];
      assert FlatMap(abstracts[..i + 1], AbstractPart) == parts + AbstractPart(abstracts[i]);
      if abstractText != [] {
        parts := parts + ["ABSTRACT: " + abstractText];
      }
    }
    assert abstracts[..|abstracts|] == abstracts;
  }

  /** The section loop of `_download_pmc_fulltext`; `None` when `.upper()`
      raises. */
  method SectionLoop(secs: seq<Element>) returns (parts: Option<seq<string>>)
    ensures parts == SectionParts(secs)
  {
    var acc: seq<string> := [];
    for i := 0 to |secs|
      invariant Collect(secs[..i], SectionPart) == Some(acc)
    {
      var sec := secs[i];
      assert secs[..i + 1][..i] == secs[..i];
      var secText := ExtractText(sec);
      assert Collect(secs[..i + 1], SectionPart) ==
        if SectionPart(sec).None? then None else Some(acc + SectionPart(sec).value);
      if secText != [] {
        var titleElem := FindChild(sec, "title");
        var sectionTitle := if titleElem.Some? then titleElem.value.text else Some("SECTION");
        if sectionTitle.None? {
          CollectPrefix(secs, i + 1, SectionPart);
          return None;
        }
        assert SectionPart(sec) == Some([Upper(sectionTitle.value) + ": " + secText]);
        acc := acc + [Upper(sectionTitle.value) + ": " + secText];
      } else {
        assert SectionPart(sec) == Some([]) && acc + [] == acc;
      }
    }
    assert secs[..|secs|] == secs;
    return Some(acc);
  }

  /** `_download_pmc_fulltext` on the parsed efetch document. */
  method AssembleFullText(root: Element) returns (fullText: Option<string>)
    ensures fullText == FullTextOf(root)
  {
    var textParts: seq<string> := [];
    var titleElem := FindDeep(root, "article-title");
    if titleElem.Some? {
      textParts := textParts + ["TITLE: " + (if titleElem.value.text.Some? then titleElem.value.text.value else "")];
    }
    var abstractParts := AbstractLoop(FindAllDeep(root, "abstract"));
    textParts := textParts + abstractParts;
    assert textParts == TitlePart(root) + AbstractParts(FindAllDeep(root, "abstract"));
    var sectionParts := SectionLoop(FindAllDeepDeep(root, "body", "sec"));
    if sectionParts.None? {
      return None;
    }
    textParts := textParts + sectionParts.value;
    var joined := Join("\n\n", textParts);
    if |Strip(joined)| < 100 {
      return None;
    }
    return Some(joined);
  }

  /** `_download_pmc_fulltext` after the request: it catches everything. */
  function FullTextResult(reply: Reply<Element>): Option<string> {
    if reply.Answer? then FullTextOf(reply.value) else None
  }

  // =====================================================================
  // _download_pmc_pdf: the accept rule
  // =====================================================================

  /** An HTTP response (status, `content-type` header or `''`, body), or a
      request that raised. */
  datatype HttpReply = Response(status: int, contentType: string, content: seq<bv8>) | HttpError

  /** The accept rule: status 200 and a content type mentioning `pdf`. */
  predicate IsPdf(r: HttpReply) {
    r.Response? && r.status == 200 && Contains(Lower(r.contentType), "pdf")
  }

  function PdfUrl(pmcId: string): string {
    "https://www.ncbi.nlm.nih.gov/pmc/articles/PMC" + pmcId + "/pdf/"
  }

  function AltPdfUrl(pmcId: string): string {
    PdfUrl(pmcId) + "main.pdf"
  }

  /** The first URL's body if it is accepted; otherwise, unless that request
      raised, the alternative URL's body if that one is accepted. */
  function PdfOf(pmcId: string, http: string -> HttpReply): (r: Option<seq<bv8>>)
    ensures r.Some? ==>
      (IsPdf(http(PdfUrl(pmcId))) && r.value == http(PdfUrl(pmcId)).content) ||
      (!IsPdf(http(PdfUrl(pmcId))) && IsPdf(http(AltPdfUrl(pmcId))) && r.value == http(AltPdfUrl(pmcId)).content)
    ensures r.None? <==>
              !IsPdf(http(PdfUrl(pmcId))) &&
              (http(PdfUrl(pmcId)).HttpError? || !IsPdf(http(AltPdfUrl(pmcId))))
  {
    var first := http(PdfUrl(pmcId));
    if first.HttpError? then None
    else if IsPdf(first) then Some(first.content)
    else
      var alt := http(AltPdfUrl(pmcId));
      if IsPdf(alt) then Some(alt.content) else None
  }

  // =====================================================================
  // The downloader
  // =====================================================================

  /** The outbound traffic of the downloader, in order. */
  datatype Event = Grant | ElinkCall(pmid: string) | EfetchCall(pmcId: string) | PdfGet(url: string)

  function GrantCount(events: seq<Event>): nat {
    if events == [] then 0 else (if events[0] == Grant then 1 else 0) + GrantCount(events[1..])
  }

  lemma {:induction false} GrantCountConcat(a: seq<Event>, b: seq<Event>)
    ensures GrantCount(a + b) == GrantCount(a) + GrantCount(b)
  {
    if a != [] {
      GrantCountConcat(a[1..], b);
      assert (a + b)[1..] == a[1..] + b;
    } else {
      assert a + b == b;
    }
  }

  /** The requests of `_download_pmc_pdf`: one grant, the first URL, and
      the alternative URL when the first answer is not accepted. */
  function PdfTraffic(pmcId: string, http: string -> HttpReply): seq<Event> {
    var first := http(PdfUrl(pmcId));
    [Grant, PdfGet(PdfUrl(pmcId))] +
    (if first.HttpError? || IsPdf(first) then [] else [PdfGet(AltPdfUrl(pmcId))])
  }

  /** Each elink and efetch request in a trace comes straight after a grant. */
  predicate Throttled(events: seq<Event>) {
    forall k :: 0 <= k < |events| && (events[k].ElinkCall? || events[k].EfetchCall?) ==>
      k > 0 && events[k - 1] == Grant
  }

  /** The full text to save for a PMID: the text of the article the first
      PMC link names, if there is one and it is long enough. */
  function FulltextFor(pmid: string, elink: string -> Reply<Element>, efetch: string -> Reply<Element>): Option<string> {
    var pmcId := UsableId(PmcIdResult(elink(pmid)));
    if pmcId.None? then None else FullTextResult(efetch(pmcId.value))
  }

  function FulltextTraffic(pmid: string, elink: string -> Reply<Element>): seq<Event> {
    var pmcId := UsableId(PmcIdResult(elink(pmid)));
    [Grant, ElinkCall(pmid)] + (if pmcId.None? then [] else [Grant, EfetchCall(pmcId.value)])
  }

  /** The PDF to save for a PMID: a non-empty accepted body. */
  function PdfFor(pmid: string, elink: string -> Reply<Element>, http: string -> HttpReply): Option<seq<bv8>> {
    var pmcId := UsableId(PmcIdResult(elink(pmid)));
    if pmcId.None? then None
    else
      var content := PdfOf(pmcId.value, http);
      if content.Some? && content.value != [] then content else None
  }

  function PdfFlowTraffic(pmid: string, elink: string -> Reply<Element>, http: string -> HttpReply): seq<Event> {
    var pmcId := UsableId(PmcIdResult(elink(pmid)));
    [Grant, ElinkCall(pmid)] + (if pmcId.None? then [] else PdfTraffic(pmcId.value, http))
  }

  /** Saved full text is at least 100 characters once stripped, and without
      a usable PMC id nothing is fetched beyond the elink request. */
  lemma FulltextForMeaning(pmid: string, elink: string -> Reply<Element>, efetch: string -> Reply<Element>)
    ensures FulltextFor(pmid, elink, efetch).Some? ==>
      UsableId(PmcIdResult(elink(pmid))).Some? && |Strip(FulltextFor(pmid, elink, efetch).value)| >= 100
    ensures UsableId(PmcIdResult(elink(pmid))).None? ==>
      FulltextFor(pmid, elink, efetch).None? && FulltextTraffic(pmid, elink) == [Grant, ElinkCall(pmid)]
  {
  }

  /** With a usable PMC id, the full-text flow is the efetch of that id. */
  lemma FulltextVia(pmid: string, elink: string -> Reply<Element>, efetch: string -> Reply<Element>, pmcId: string)
    requires UsableId(PmcIdResult(elink(pmid))) == Some(pmcId)
    ensures FulltextFor(pmid, elink, efetch) == FullTextResult(efetch(pmcId))
    ensures FulltextTraffic(pmid, elink) == [Grant, ElinkCall(pmid)] + [Grant, EfetchCall(pmcId)]
  {
  }

  /** Every elink and efetch request of the full-text flow is throttled. */
  lemma FulltextThrottled(pmid: string, elink: string -> Reply<Element>)
    ensures Throttled(FulltextTraffic(pmid, elink))
  {
  }

  /** The alternative PDF request is not preceded by a grant of its own:
      `_download_pmc_pdf` rate-limits once for up to two requests. */
  lemma AltPdfUnthrottled(pmcId: string, http: string -> HttpReply)
    requires http(PdfUrl(pmcId)).Response? && !IsPdf(http(PdfUrl(pmcId)))
    ensures var t := PdfTraffic(pmcId, http);
      |t| == 3 && t[2] == PdfGet(AltPdfUrl(pmcId)) && t[1] != Grant && GrantCount(t) == 1
  {
    var t := PdfTraffic(pmcId, http);
    assert t == [Grant] + [PdfGet(PdfUrl(pmcId))] + [PdfGet(AltPdfUrl(pmcId))];
    GrantCountConcat([Grant] + [PdfGet(PdfUrl(pmcId))], [PdfGet(AltPdfUrl(pmcId))]);
    GrantCountConcat([Grant], [PdfGet(PdfUrl(pmcId))]);
    assert GrantCount([PdfGet(PdfUrl(pmcId))]) == 0;
    assert GrantCount([PdfGet(AltPdfUrl(pmcId))]) == 0;
  }

  class Downloader {
    const limiter: RateLimiter
    /** The files written under the `txt` directory, by file name. */
    var txtFiles: map<string, string>
    /** The files written under the `pdf` directory, by file name. */
    var pdfFiles: map<string, seq<bv8>>
    ghost var trace: seq<Event>

    /** Each grant in the trace is one grant of the limiter. */
    ghost predicate Valid()
      reads this, limiter
    {
      limiter.Valid() && GrantCount(trace) == |limiter.grants|
    }

    constructor ()
      ensures Valid() && fresh(limiter) && trace == []
      ensures txtFiles == map[] && pdfFiles == map[]
      ensures limiter.lastRequestTime == 0
    {
      limiter := new RateLimiter();
      txtFiles := map[];
      pdfFiles := map[];
      trace := [];
    }

    /** One grant of the limiter followed by `request`. */
    method Throttle(request: Event, clock: Clock)
      requires Valid() && request != Grant
      modifies this, limiter, clock
      ensures Valid()
      ensures txtFiles == old(txtFiles) && pdfFiles == old(pdfFiles)
      ensures trace == old(trace) + [Grant, request]
      ensures limiter.lastRequestTime >= old(limiter.lastRequestTime) + Delay
    {
      limiter.Acquire(clock);
      GrantCountConcat(trace, [Grant, request]);
      assert GrantCount([request]) == 0;
      trace := trace + [Grant, request];
    }

    /** `_get_pmc_id` */
    method GetPmcId(pmid: string, elink: string -> Reply<Element>, clock: Clock)
      returns (r: Outcome<Option<string>>)
      requires Valid()
      modifies this, limiter, clock
      ensures Valid()
      ensures txtFiles == old(txtFiles) && pdfFiles == old(pdfFiles)
      ensures trace == old(trace) + [Grant, ElinkCall(pmid)]
      ensures r == PmcIdResult(elink(pmid))
    {
      Throttle(ElinkCall(pmid), clock);
      match elink(pmid)
      case Answer(root) =>
        var pmcId := FindPmcId(root);
        r := Done(pmcId);
      case RequestFailed =>
        r := Done(None);
      case MalformedXml =>
        r := Done(None);
      case Raised =>
        r := Escaped;
    }

    /** `_download_pmc_fulltext` */
    method DownloadPmcFulltext(pmcId: string, efetch: string -> Reply<Element>, clock: Clock)
      returns (r: Option<string>)
      requires Valid()
      modifies this, limiter, clock
      ensures Valid()
      ensures txtFiles == old(txtFiles) && pdfFiles == old(pdfFiles)
      ensures trace == old(trace) + [Grant, EfetchCall(pmcId)]
      ensures r == FullTextResult(efetch(pmcId))
    {
      Throttle(EfetchCall(pmcId), clock);
      var reply := efetch(pmcId);
      if !reply.Answer? {
        return None;
      }
      r := AssembleFullText(reply.value);
    }

    /** `_download_pmc_pdf` */
    method DownloadPmcPdf(pmcId: string, http: string -> HttpReply, clock: Clock)
      returns (r: Option<seq<bv8>>)
      requires Valid()
      modifies this, limiter, clock
      ensures Valid()
      ensures txtFiles == old(txtFiles) && pdfFiles == old(pdfFiles)
      ensures trace == old(trace) + PdfTraffic(pmcId, http)
      ensures r == PdfOf(pmcId, http)
    {
      var pdfUrl := PdfUrl(pmcId);
      Throttle(PdfGet(pdfUrl), clock);
      var response := http(pdfUrl);
      if response.HttpError? {
        return None;
      }
      if Contains(Lower(response.contentType), "pdf") && response.status == 200 {
        return Some(response.content);
      }
      var altPdfUrl := AltPdfUrl(pmcId);
      GrantCountConcat(trace, [PdfGet(altPdfUrl)]);
      trace := trace + [PdfGet(altPdfUrl)];
      var altResponse := http(altPdfUrl);
      if altResponse.Response? && altResponse.status == 200 {
        if Contains(Lower(altResponse.contentType), "pdf") {
          return Some(altResponse.content);
        }
      }
      return None;
    }

    /** `download_fulltext`: saves `filename.txt` and reports `true` exactly
        when a PMC id and a long enough full text were found. */
    method DownloadFulltext(pmid: string, filename: string,
                            elink: string -> Reply<Element>, efetch: string -> Reply<Element>, clock: Clock)
      returns (ok: bool)
      requires Valid()
      modifies this, limiter, clock
      ensures Valid()
      ensures ok <==> FulltextFor(pmid, elink, efetch).Some?
      ensures txtFiles == if ok then old(txtFiles)[filename + ".txt" := FulltextFor(pmid, elink, efetch).value]
                          else old(txtFiles)
      ensures pdfFiles == old(pdfFiles)
      ensures trace == old(trace) + FulltextTraffic(pmid, elink)
    {
      var pmcIdResult := GetPmcId(pmid, elink, clock);
      if pmcIdResult.Escaped? || pmcIdResult.value.None? || pmcIdResult.value.value == [] {
        return false;
      }
      var pmcId := pmcIdResult.value.value;
      var fullText := DownloadPmcFulltext(pmcId, efetch, clock);
      FulltextVia(pmid, elink, efetch, pmcId);
      AppendAssoc(old(trace), [Grant, ElinkCall(pmid)], [Grant, EfetchCall(pmcId)]);
      if fullText.None? || fullText.value == [] {
        FulltextForMeaning(pmid, elink, efetch);
        return false;
      }
      txtFiles := txtFiles[filename + ".txt" := fullText.value];
      ok := true;
    }

    /** `download_pdf`: saves `filename.pdf` and reports `true` exactly when
        a PMC id and a non-empty accepted PDF body were found. */
    method DownloadPdf(pmid: string, filename: string,
                       elink: string -> Reply<Element>, http: string -> HttpReply, clock: Clock)
      returns (ok: bool)
      requires Valid()
      modifies this, limiter, clock
      ensures Valid()
      ensures ok <==> PdfFor(pmid, elink, http).Some?
      ensures pdfFiles == if ok then old(pdfFiles)[filename + ".pdf" := PdfFor(pmid, elink, http).value]
                          else old(pdfFiles)
      ensures txtFiles == old(txtFiles)
      ensures trace == old(trace) + PdfFlowTraffic(pmid, elink, http)
    {
      var pmcIdResult := GetPmcId(pmid, elink, clock);
      if pmcIdResult.Escaped? || pmcIdResult.value.None? || pmcIdResult.value.value == [] {
        return false;
      }
      var pmcId := pmcIdResult.value.value;
      var pdfContent := DownloadPmcPdf(pmcId, http, clock);
      AppendAssoc(old(trace), [Grant, ElinkCall(pmid)], PdfTraffic(pmcId, http));
      if pdfContent.None? || pdfContent.value == [] {
        return false;
      }
      pdfFiles := pdfFiles[filename + ".pdf" := pdfContent.value];
      ok := true;
    }
  }
}
