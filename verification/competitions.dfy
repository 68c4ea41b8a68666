/** The competition-list extractor of `GET /api/competities`: every `<a>` of
    the landing page, in document order, whose `href` contains
    `/hetgroenelaken/standen/id/<digits>` and whose trimmed text is not
    empty, becomes an `{id, naam}` entry; an id already listed is skipped,
    so the first qualifying link of each id wins. */
module Competitions {
  import opened Optional
  import opened JsText
  import opened Seqs
  import opened JsNumber

  /** An `<a>` element: its `href` attribute, if it has one, and its text. */
  datatype Link = Link(href: Option<string>, text: string)

  datatype Competition = Competition(id: int, naam: string)

  /** The literal part of the link pattern. */
  const LinkPath: string := "/hetgroenelaken/standen/id/"

  /** The link pattern matches at index `p`: the path, then a digit. */
  predicate PathAt(href: string, p: int) {
    && 0 <= p && p + |LinkPath| < |href|
    && href[p..p + |LinkPath|] == LinkPath
    && IsDigit(href[p + |LinkPath|])
  }

  /** The unanchored pattern's match is the leftmost one. */
  predicate FirstPathAt(href: string, p: int) {
    PathAt(href, p) && forall q :: 0 <= q < p ==> !PathAt(href, q)
  }

  lemma FirstPathUnique(href: string, p: int, q: int)
    requires FirstPathAt(href, p) && FirstPathAt(href, q)
    ensures p == q
  {
    assert PathAt(href, p) && PathAt(href, q);
  }

  /** The digit group of the match starting at `p`: greedy `\d+`. */
  function DigitsAt(href: string, p: int): string
    requires PathAt(href, p)
  {
    LeadingDigits(href[p + |LinkPath|..], 10)
  }

  /** The leftmost match at or after index `p`. */
  function MatchFrom(href: string, p: nat): (r: Option<nat>)
    ensures r.None? ==> forall q :: p <= q ==> !PathAt(href, q)
    ensures r.Some? ==> p <= r.value && PathAt(href, r.value)
                        && forall q :: p <= q < r.value ==> !PathAt(href, q)
    decreases |href| - p
  {
    if p + |LinkPath| >= |href| then None
    else if PathAt(href, p) then Some(p)
    else MatchFrom(href, p + 1)
  }

  /** `href.match(/\/hetgroenelaken\/standen\/id\/(\d+)/)[1]`, or `None`
      when the pattern does not occur. */
  function HrefId(href: string): (r: Option<string>)
    ensures r.None? <==> forall q :: !PathAt(href, q)
    ensures r.Some? ==> exists p :: FirstPathAt(href, p) && r.value == DigitsAt(href, p)
    ensures r.Some? ==> |r.value| > 0 && AllDigits(r.value)
  {
    match MatchFrom(href, 0)
    case None => None
    case Some(p) =>
      var ds := DigitsAt(href, p);
      assert FirstPathAt(href, p);
      assert href[p + |LinkPath|..][0] == href[p + |LinkPath|];
      assert |ds| > 0;
      assert AllDigits(ds) by {
        forall i | 0 <= i < |ds| ensures IsDigit(ds[i]) {
          assert DigitValue(ds[i]) < 10;
        }
      }
      Some(ds)
  }

  /** A relative link to a competition page yields its digits. */
  lemma HrefIdOfPath(ds: string, rest: string)
    requires |ds| > 0 && AllDigits(ds)
    requires |rest| == 0 || !IsDigit(rest[0])
    ensures HrefId(LinkPath + ds + rest) == Some(ds)
  {
    var href := LinkPath + ds + rest;
    PathAtStart(ds, rest);
    var p :| FirstPathAt(href, p) && HrefId(href).value == DigitsAt(href, p);
    FirstPathUnique(href, 0, p);
    DigitsAreRadix10(ds);
    LeadingDigitsOf(ds, rest, 10);
  }

  lemma PathAtStart(ds: string, rest: string)
    requires |ds| > 0 && AllDigits(ds)
    ensures var href := LinkPath + ds + rest;
            FirstPathAt(href, 0) && href[|LinkPath|..] == ds + rest
  {
    var href := LinkPath + ds + rest;
    AppendAssoc(LinkPath, ds, rest);
    PrefixOfAppend(LinkPath, ds + rest);
    SuffixOfAppend(LinkPath, ds + rest);
    assert href[|LinkPath|] == (ds + rest)[0] == ds[0];
  }

  /** `parseInt` of the digit group: its decimal value. */
  function IdOf(ds: string): (id: int)
    requires |ds| > 0 && AllDigits(ds)
    ensures id == Value(ds, 10) && Some(id) == ParseInt(ds)
  {
    assert ds + "" == ds;
    ParseIntDecimal(ds, "");
    ParseInt(ds).value
  }

  /** The entry a link contributes before deduplication: only a link whose
      `href` is present and matches, and whose trimmed text is not empty. */
  function Candidate(l: Link): (r: Option<Competition>)
    ensures r.Some? <==> l.href.Some? && HrefId(l.href.value).Some? && Trim(l.text) != ""
    ensures r.Some? ==> r.value == Competition(Value(HrefId(l.href.value).value, 10), Trim(l.text))
    ensures r.Some? ==> r.value.naam != "" && IsTrimmed(r.value.naam)
  {
    match l.href
    case None => None
    case Some(h) =>
      match HrefId(h)
      case None => None
      case Some(ds) =>
        var naam := Trim(l.text);
        if naam == "" then None else Some(Competition(IdOf(ds), naam))
  }

  /** `competities.some(c => c.id === id)`. */
  predicate HasId(cs: seq<Competition>, id: int) {
    exists k :: 0 <= k < |cs| && cs[k].id == id
  }

  /** No two entries share an id. */
  predicate DistinctIds(cs: seq<Competition>) {
    forall i, j :: 0 <= i < j < |cs| ==> cs[i].id != cs[j].id
  }

  /** What each link contributes before deduplication, in document order. */
  function Candidates(links: seq<Link>): (cands: seq<Option<Competition>>)
    ensures |cands| == |links|
    ensures forall i :: 0 <= i < |links| ==> cands[i] == Candidate(links[i])
  {
    seq(|links|, i requires 0 <= i < |links| => Candidate(links[i]))
  }

  /** The `$('a').each` loop over the links' contributions: an entry is
      pushed unless the list built so far already has its id. */
  function Collect(cands: seq<Option<Competition>>): seq<Competition> {
    if |cands| == 0 then []
    else
      var acc := Collect(cands[..|cands| - 1]);
      match cands[|cands| - 1]
      case None => acc
      case Some(c) => if HasId(acc, c.id) then acc else acc + [c]
  }

  /** The list the handler builds from the page's links. */
  function ExtractCompetitions(links: seq<Link>): seq<Competition> {
    Collect(Candidates(links))
  }

  /** Contribution `j` is an entry with id `id`. */
  predicate QualifiesFor(cands: seq<Option<Competition>>, j: int, id: int) {
    0 <= j < |cands| && cands[j].Some? && cands[j].value.id == id
  }

  /** Every listed entry is some link's contribution. */
  lemma {:induction false} CollectFromCandidates(cands: seq<Option<Competition>>)
    ensures forall c :: c in Collect(cands) ==> Some(c) in cands
  {
    if |cands| > 0 {
      var init := cands[..|cands| - 1];
      CollectFromCandidates(init);
      assert forall x :: x in init ==> x in cands;
    }
  }

  /** The ids listed are pairwise distinct. */
  lemma {:induction false} CollectDistinct(cands: seq<Option<Competition>>)
    ensures DistinctIds(Collect(cands))
  {
    if |cands| > 0 {
      var init := cands[..|cands| - 1];
      CollectDistinct(init);
      var acc := Collect(init);
      match cands[|cands| - 1]
      case None =>
      case Some(c) =>
        if !HasId(acc, c.id) {
          var r := acc + [c];
          forall i, j | 0 <= i < j < |r| ensures r[i].id != r[j].id {
            if j < |acc| {
              assert r[i] == acc[i] && r[j] == acc[j];
            } else {
              assert r[i] == acc[i];
            }
          }
        }
    }
  }

  /** An id is listed exactly when some contribution has it. */
  lemma {:induction false} CollectIds(cands: seq<Option<Competition>>, id: int)
    ensures HasId(Collect(cands), id) <==> exists j :: QualifiesFor(cands, j, id)
  {
    if |cands| > 0 {
      var n := |cands| - 1;
      var init := cands[..n];
      CollectIds(init, id);
      assert forall j :: QualifiesFor(init, j, id) ==> QualifiesFor(cands, j, id);
      assert forall j :: j < n && QualifiesFor(cands, j, id) ==> QualifiesFor(init, j, id);
      var acc := Collect(init);
      var r := Collect(cands);
      if HasId(acc, id) {
        var k :| 0 <= k < |acc| && acc[k].id == id;
        assert r[k] == acc[k];
      }
      if QualifiesFor(cands, n, id) && !HasId(acc, id) {
        assert r[|acc|].id == id;
      }
    }
  }

  /** Contribution `i` is the first one with its id. */
  predicate FirstForItsId(cands: seq<Option<Competition>>, i: int) {
    && 0 <= i < |cands| && cands[i].Some?
    && forall j :: 0 <= j < i ==> !QualifiesFor(cands, j, cands[i].value.id)
  }

  /** The first contribution of each id, in document order: what the list
      should hold, defined without the running list. */
  ghost function FirstEntries(cands: seq<Option<Competition>>): seq<Competition> {
    if |cands| == 0 then []
    else
      var n := |cands| - 1;
      FirstEntries(cands[..n]) + (if FirstForItsId(cands, n) then [cands[n].value] else [])
  }

  lemma {:induction false} CollectIsFirstEntries(cands: seq<Option<Competition>>)
    ensures Collect(cands) == FirstEntries(cands)
  {
    if |cands| > 0 {
      var n := |cands| - 1;
      var init := cands[..n];
      CollectIsFirstEntries(init);
      if cands[n].Some? {
        var id := cands[n].value.id;
        CollectIds(init, id);
        assert forall j :: 0 <= j < n ==> (QualifiesFor(init, j, id) <==> QualifiesFor(cands, j, id));
        assert FirstForItsId(cands, n) <==> !HasId(Collect(init), id);
      }
    }
  }

  lemma {:induction false} CollectFirstWins(cands: seq<Option<Competition>>, i: int)
    requires FirstForItsId(cands, i)
    ensures cands[i].value in Collect(cands)
    ensures forall c :: c in Collect(cands) && c.id == cands[i].value.id ==> c == cands[i].value
  {
    var c0 := cands[i].value;
    var n := |cands| - 1;
    var init := cands[..n];
    var acc := Collect(init);
    if n == i {
      CollectIds(init, c0.id);
      assert forall j :: QualifiesFor(init, j, c0.id) ==> QualifiesFor(cands, j, c0.id);
      assert !HasId(acc, c0.id);
      forall c | c in acc ensures c.id != c0.id {
        var k :| 0 <= k < |acc| && acc[k] == c;
      }
    } else {
      assert FirstForItsId(init, i) by {
        forall j | 0 <= j < i ensures !QualifiesFor(init, j, c0.id) {
          assert !QualifiesFor(cands, j, c0.id);
        }
      }
      CollectFirstWins(init, i);
      if cands[n].Some? && cands[n].value.id == c0.id {
        var k :| 0 <= k < |acc| && acc[k] == c0;
        assert HasId(acc, c0.id);
      }
    }
  }

  lemma {:induction false} CollectSkipsNone(pre: seq<Option<Competition>>, post: seq<Option<Competition>>)
    ensures Collect(pre + [None] + post) == Collect(pre + post)
  {
    if |post| == 0 {
      assert pre + [None] + post == pre + [None];
      assert (pre + [None])[..|pre|] == pre;
      assert pre + post == pre;
    } else {
      var m := |post| - 1;
      CollectSkipsNone(pre, post[..m]);
      assert (pre + [None] + post)[..|pre| + 1 + m] == pre + [None] + post[..m];
      assert (pre + post)[..|pre| + m] == pre + post[..m];
    }
  }

  // Properties of the extracted list, stated over the page's links.

  /** Every entry comes from a qualifying link, so its name is non-empty and
      trimmed; and no two entries share an id. */
  lemma ExtractWellFormed(links: seq<Link>)
    ensures DistinctIds(ExtractCompetitions(links))
    ensures forall c :: c in ExtractCompetitions(links)
                        ==> c.naam != "" && IsTrimmed(c.naam)
                            && exists j :: 0 <= j < |links| && Candidate(links[j]) == Some(c)
  {
    CollectDistinct(Candidates(links));
    CollectFromCandidates(Candidates(links));
  }

  /** An id is listed exactly when some link qualifies for it. */
  lemma ExtractIds(links: seq<Link>, id: int)
    ensures HasId(ExtractCompetitions(links), id)
            <==> exists j :: 0 <= j < |links| && Candidate(links[j]).Some?
                             && Candidate(links[j]).value.id == id
  {
    var cands := Candidates(links);
    CollectIds(cands, id);
    assert forall j :: QualifiesFor(cands, j, id) <==>
      (0 <= j < |links| && Candidate(links[j]).Some? && Candidate(links[j]).value.id == id);
  }

  /** With no qualifying link the list is empty, and conversely. */
  lemma ExtractEmpty(links: seq<Link>)
    ensures ExtractCompetitions(links) == []
            <==> forall j :: 0 <= j < |links| ==> Candidate(links[j]).None?
  {
    var r := ExtractCompetitions(links);
    if r != [] {
      ExtractIds(links, r[0].id);
    }
    if j :| 0 <= j < |links| && Candidate(links[j]).Some? {
      ExtractIds(links, Candidate(links[j]).value.id);
    }
  }

  /** The list is exactly the entry of the first qualifying link of each
      id, in document order. */
  lemma ExtractIsFirstEntries(links: seq<Link>)
    ensures ExtractCompetitions(links) == FirstEntries(Candidates(links))
  {
    CollectIsFirstEntries(Candidates(links));
  }

  /** The first qualifying link for an id is listed and is the only entry
      with that id: a later link with the same id is dropped even when its
      text differs. */
  lemma FirstWins(links: seq<Link>, i: int)
    requires 0 <= i < |links| && Candidate(links[i]).Some?
    requires forall j :: 0 <= j < i && Candidate(links[j]).Some?
                         ==> Candidate(links[j]).value.id != Candidate(links[i]).value.id
    ensures Candidate(links[i]).value in ExtractCompetitions(links)
    ensures forall c :: c in ExtractCompetitions(links) && c.id == Candidate(links[i]).value.id
                        ==> c == Candidate(links[i]).value
  {
    CollectFirstWins(Candidates(links), i);
  }

  lemma CandidatesAppend(a: seq<Link>, b: seq<Link>)
    ensures Candidates(a + b) == Candidates(a) + Candidates(b)
  {
    var l, r := Candidates(a + b), Candidates(a) + Candidates(b);
    forall i | 0 <= i < |a + b| ensures l[i] == r[i] {
      if i < |a| {
        assert (a + b)[i] == a[i];
      } else {
        assert (a + b)[i] == b[i - |a|];
      }
    }
  }

  /** A link that does not qualify (no `href`, a non-matching one, or text
      that trims to nothing) changes nothing, wherever it stands: in
      particular it does not hold a later link's id. */
  lemma NonQualifyingIgnored(pre: seq<Link>, l: Link, post: seq<Link>)
    requires Candidate(l).None?
    ensures ExtractCompetitions(pre + [l] + post) == ExtractCompetitions(pre + post)
  {
    CandidatesAppend(pre, [l]);
    CandidatesAppend(pre + [l], post);
    assert Candidates([l]) == [None];
    CandidatesAppend(pre, post);
    CollectSkipsNone(Candidates(pre), Candidates(post));
  }
}
