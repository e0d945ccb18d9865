/** app/legal/page.tsx: the list of published legal documents, newest first,
    and the two ways the page renders it. */
module LegalPage {

  /** A legal document as the content layer gives it; `date` is the instant
      `new Date(legal.date)` denotes, as an integer timestamp. */
  datatype Legal = Legal(id: string, slug: string, pageTitle: string, pageDescription: string, date: int, published: bool)

  /** `.filter((legal) => legal.published)` */
  function Published(docs: seq<Legal>): (ps: seq<Legal>)
    ensures forall i :: 0 <= i < |ps| ==> ps[i].published
    ensures |ps| <= |docs|
    ensures forall x :: x in ps ==> x in docs
    decreases |docs|
  {
    if docs == [] then []
    else
      var rest := Published(docs[1..]);
      assert forall x :: x in rest ==> x in docs[1..];
      (if docs[0].published then [docs[0]] else []) + rest
  }

  /** Inserts `x` before the first document that is not newer than it. */
  function Insert(x: Legal, sorted: seq<Legal>): seq<Legal>
    decreases |sorted|
  {
    if sorted == [] || sorted[0].date <= x.date then [x] + sorted
    else [sorted[0]] + Insert(x, sorted[1..])
  }

  /** `.sort((a, b) => compareDesc(a.date, b.date))`: a stable sort, newest first.
      The sort of the standard library is stable, and `compareDesc` orders by
      decreasing date and calls equal dates equal. */
  function SortByDateDesc(docs: seq<Legal>): (sorted: seq<Legal>)
    ensures |sorted| == |docs|
    ensures multiset(sorted) == multiset(docs)
    decreases |docs|
  {
    if docs == [] then []
    else
      var rest := SortByDateDesc(docs[1..]);
      InsertMultiset(docs[0], rest);
      assert docs == [docs[0]] + docs[1..];
      Insert(docs[0], rest)
  }

  /** The documents the page lists, in order. */
  function Listing(allLegals: seq<Legal>): (listed: seq<Legal>)
    ensures SortedByDateDesc(listed)
    ensures multiset(listed) == multiset(Published(allLegals))
  {
    SortFacts(Published(allLegals));
    SortByDateDesc(Published(allLegals))
  }

  predicate SortedByDateDesc(docs: seq<Legal>) {
    forall i, j :: 0 <= i < j < |docs| ==> docs[i].date >= docs[j].date
  }

  /** The documents of `docs` dated `d`, in their order. */
  function WithDate(docs: seq<Legal>, d: int): seq<Legal>
    decreases |docs|
  {
    if docs == [] then []
    else (if docs[0].date == d then [docs[0]] else []) + WithDate(docs[1..], d)
  }

  // ---------------------------------------------------------------------
  // The sort

  lemma {:induction false} InsertMultiset(x: Legal, s: seq<Legal>)
    ensures multiset(Insert(x, s)) == multiset(s) + multiset{x}
    ensures |Insert(x, s)| == |s| + 1
    decreases |s|
  {
    if s != [] && s[0].date > x.date {
      InsertMultiset(x, s[1..]);
      assert s == [s[0]] + s[1..];
    }
  }

  /** Every document of the result is the inserted one or one of `s`. */
  lemma {:induction false} InsertElements(x: Legal, s: seq<Legal>)
    ensures forall y :: y in Insert(x, s) ==> y == x || y in s
    decreases |s|
  {
    if s != [] && s[0].date > x.date {
      InsertElements(x, s[1..]);
      assert forall y :: y in s[1..] ==> y in s;
    }
  }

  lemma SortedTail(s: seq<Legal>)
    requires |s| > 0 && SortedByDateDesc(s)
    ensures SortedByDateDesc(s[1..])
    ensures forall y :: y in s[1..] ==> y.date <= s[0].date
  {
    forall i, j | 0 <= i < j < |s[1..]| ensures s[1..][i].date >= s[1..][j].date {
      assert s[1..][i] == s[i + 1] && s[1..][j] == s[j + 1];
    }
    forall y | y in s[1..] ensures y.date <= s[0].date {
      var k :| 0 <= k < |s[1..]| && s[1..][k] == y;
      assert s[k + 1] == y;
    }
  }

  /** Inserting into a newest-first list keeps it newest first. */
  lemma {:induction false} InsertSorted(x: Legal, s: seq<Legal>)
    requires SortedByDateDesc(s)
    ensures SortedByDateDesc(Insert(x, s))
    decreases |s|
  {
    if s == [] || s[0].date <= x.date {
      var r := [x] + s;
      forall i, j | 0 <= i < j < |r| ensures r[i].date >= r[j].date {
        if i == 0 {
          assert r[j] == s[j - 1];
          assert s[0].date >= s[j - 1].date;
        } else {
          assert r[i] == s[i - 1] && r[j] == s[j - 1];
        }
      }
    } else {
      var t := s[1..];
      SortedTail(s);
      InsertSorted(x, t);
      InsertElements(x, t);
      var rest := Insert(x, t);
      var r := [s[0]] + rest;
      assert Insert(x, s) == r;
      forall i, j | 0 <= i < j < |r| ensures r[i].date >= r[j].date {
        if i == 0 {
          assert r[j] == rest[j - 1];
          assert rest[j - 1] in rest;
        } else {
          assert r[i] == rest[i - 1] && r[j] == rest[j - 1];
        }
      }
    }
  }

  /** Inserting a document dated `d` puts it before every other document dated
      `d`, since every document it skips is newer; documents of other dates
      keep their relative order. */
  lemma {:induction false} InsertWithDate(x: Legal, s: seq<Legal>, d: int)
    ensures WithDate(Insert(x, s), d) == (if x.date == d then [x] else []) + WithDate(s, d)
    decreases |s|
  {
    if s == [] || s[0].date <= x.date {
      assert Insert(x, s)[1..] == s;
    } else {
      InsertWithDate(x, s[1..], d);
      assert Insert(x, s)[1..] == Insert(x, s[1..]);
    }
  }

  /** The sort is a permutation, newest first, and stable: the documents of
      any one date keep their original order. */
  lemma {:induction false} SortFacts(docs: seq<Legal>)
    ensures multiset(SortByDateDesc(docs)) == multiset(docs)
    ensures |SortByDateDesc(docs)| == |docs|
    ensures SortedByDateDesc(SortByDateDesc(docs))
    ensures forall d :: WithDate(SortByDateDesc(docs), d) == WithDate(docs, d)
    decreases |docs|
  {
    if docs != [] {
      SortFacts(docs[1..]);
      InsertMultiset(docs[0], SortByDateDesc(docs[1..]));
      InsertSorted(docs[0], SortByDateDesc(docs[1..]));
      assert docs == [docs[0]] + docs[1..];
      forall d ensures WithDate(SortByDateDesc(docs), d) == WithDate(docs, d) {
        InsertWithDate(docs[0], SortByDateDesc(docs[1..]), d);
      }
    }
  }

  /** The filter keeps exactly the published documents, each as often as
      the input has it. */
  lemma {:induction false} PublishedMultiset(docs: seq<Legal>)
    ensures multiset(Published(docs)) <= multiset(docs)
    ensures forall x: Legal :: x.published ==> multiset(Published(docs))[x] == multiset(docs)[x]
    decreases |docs|
  {
    if docs != [] {
      PublishedMultiset(docs[1..]);
      assert docs == [docs[0]] + docs[1..];
    }
  }

  lemma PublishedMembers(docs: seq<Legal>)
    ensures forall x :: x in Published(docs) <==> x in docs && x.published
  {
    PublishedMultiset(docs);
    forall x ensures x in Published(docs) <==> x in docs && x.published {
      assert x in Published(docs) <==> x in multiset(Published(docs));
      assert x in docs <==> x in multiset(docs);
    }
  }

  /** With every document published, the filter changes nothing. */
  lemma {:induction false} AllPublished(docs: seq<Legal>)
    requires forall i :: 0 <= i < |docs| ==> docs[i].published
    ensures Published(docs) == docs
    decreases |docs|
  {
    if docs != [] {
      AllPublished(docs[1..]);
      assert docs == [docs[0]] + docs[1..];
    }
  }

  /** The listing: only published documents, newest first, each published
      document exactly as often as in the input, equal dates in input order. */
  lemma ListingFacts(allLegals: seq<Legal>)
    ensures var l := Listing(allLegals);
            && (forall i :: 0 <= i < |l| ==> l[i].published)
            && SortedByDateDesc(l)
            && multiset(l) == multiset(Published(allLegals))
            && |l| == |Published(allLegals)|
            && (forall x: Legal :: multiset(l)[x] == if x.published then multiset(allLegals)[x] else 0)
            && (forall x :: x in l <==> x in allLegals && x.published)
            && (forall d :: WithDate(l, d) == WithDate(Published(allLegals), d))
  {
    PublishedMultiset(allLegals);
    var ps := Published(allLegals);
    SortFacts(ps);
    PublishedMembers(allLegals);
    var l := Listing(allLegals);
    forall x ensures x in l <==> x in ps {
      assert x in l <==> x in multiset(l);
      assert x in ps <==> x in multiset(ps);
    }
    forall i | 0 <= i < |l| ensures l[i].published {
      assert l[i] in l;
    }
  }

  /** Two documents of different dates: the newer comes first whatever the input order. */
  lemma NewestFirstExample(older: Legal, newer: Legal)
    requires older.published && newer.published && older.date < newer.date
    ensures Listing([older, newer]) == [newer, older]
    ensures Listing([newer, older]) == [newer, older]
  {
    assert [older, newer][1..] == [newer];
    assert [newer, older][1..] == [older];
    assert [older][1..] == [];
    assert [newer][1..] == [];
    assert Published([older, newer]) == [older, newer];
    assert Published([newer, older]) == [newer, older];
    assert SortByDateDesc([newer]) == [newer];
    assert SortByDateDesc([older]) == [older];
    assert Insert(older, [newer]) == [newer] + Insert(older, []);
    assert Insert(newer, [older]) == [newer, older];
  }

  // ---------------------------------------------------------------------
  // Rendering

  /** One card: the link key and target, the title, the description when it
      is non-empty, and the date. */
  datatype Card = Card(key: string, href: string, title: string, description: seq<string>, date: int)

  datatype Page =
    | NoDocuments(message: string)
    | Cards(cards: seq<Card>)

  function CardFor(legal: Legal): Card {
    Card(legal.id, legal.slug, legal.pageTitle, if legal.pageDescription != "" then [legal.pageDescription] else [], legal.date)
  }

  function CardsOf(legals: seq<Legal>): (cs: seq<Card>)
    ensures |cs| == |legals|
    ensures forall i :: 0 <= i < |legals| ==> cs[i] == CardFor(legals[i])
    decreases |legals|
  {
    if legals == [] then [] else [CardFor(legals[0])] + CardsOf(legals[1..])
  }

  /** `legals?.length ? <Grid>...</Grid> : <Copy>No legal documents published.</Copy>` */
  function Render(allLegals: seq<Legal>): (page: Page)
    ensures page.NoDocuments? ==> page.message == "No legal documents published." && Listing(allLegals) == []
    ensures page.Cards? ==> |page.cards| == |Listing(allLegals)| > 0
  {
    var legals := Listing(allLegals);
    if |legals| > 0 then Cards(CardsOf(legals)) else NoDocuments("No legal documents published.")
  }

  /** The empty branch is taken exactly when no document is published;
      otherwise there is one card per listed document, in listing order,
      linking to its slug, with a description exactly when it has one. */
  lemma RenderRule(allLegals: seq<Legal>)
    ensures Render(allLegals).NoDocuments? <==> forall x :: x in allLegals ==> !x.published
    ensures Render(allLegals).NoDocuments? ==> Render(allLegals).message == "No legal documents published."
    ensures Render(allLegals).Cards? ==>
              var l := Listing(allLegals);
              var cs := Render(allLegals).cards;
              |cs| == |l|
              && forall i :: 0 <= i < |l| ==>
                   cs[i].href == l[i].slug && cs[i].key == l[i].id && cs[i].title == l[i].pageTitle
                   && (cs[i].description != [] <==> l[i].pageDescription != "")
  {
    ListingFacts(allLegals);
    var l := Listing(allLegals);
    if |l| > 0 {
      assert l[0] in l;
    }
  }
}
