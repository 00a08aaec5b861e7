/**
 * The tag and author listings of the content utilities (src/utils/content.ts).
 *
 * `getTags` / `getAuthors` list one `{original, slug}` per non-null entry of
 * every non-draft post, in the order of the sorted posts: the `Set` they
 * build holds freshly created objects, so it removes nothing.
 * `getUniqueTagsWithCount` / `getUniqueAuthorsWithCount` group those entries
 * by slug in a `Map` that remembers insertion order; `Tally` is the list
 * that map ends up holding.
 */
module Taxonomies {
  import opened Common
  import opened Presentation
  import opened Sorting
  import opened Content

  /** One listed tag or author. */
  datatype Term = Term(original: string, slug: string)

  /** One entry of a count: the first original seen for the slug and how many entries carry it. */
  datatype CountedTerm = CountedTerm(original: string, slug: string, count: nat)

  // ---------------------------------------------------------------------
  // getTags and getAuthors
  // ---------------------------------------------------------------------

  /** `post.data.tags ?? []`. */
  function EntriesOrEmpty(p: Post, field: Taxonomy): seq<Option<string>> {
    if Entries(p, field).Some? then Entries(p, field).value else []
  }

  /** The non-null entries, each paired with its slug. */
  function TermsOfEntries(entries: seq<Option<string>>): seq<Term> {
    if entries == [] then []
    else
      var rest := TermsOfEntries(entries[1..]);
      match entries[0]
      case None => rest
      case Some(e) => [Term(e, Slugify(e))] + rest
  }

  /** `posts.flatMap(...).filter(...).map(...)`, gathered in a `Set` of fresh objects. */
  function TermsOf(posts: seq<Post>, field: Taxonomy): seq<Term> {
    if posts == [] then [] else TermsOfEntries(EntriesOrEmpty(posts[0], field)) + TermsOf(posts[1..], field)
  }

  method GetTags(collection: seq<Post>) returns (tags: seq<Term>)
    ensures tags == TermsOf(SortedPosts(collection, None, false, false).posts, Tags)
  {
    var q := GetSortedPosts(collection, None, false, false);
    tags := TermsOf(q.posts, Tags);
  }

  method GetAuthors(collection: seq<Post>) returns (authors: seq<Term>)
    ensures authors == TermsOf(SortedPosts(collection, None, false, false).posts, Authors)
  {
    var q := GetSortedPosts(collection, None, false, false);
    authors := TermsOf(q.posts, Authors);
  }

  /** How many entries of the posts equal `s`. */
  function EntryCount(posts: seq<Post>, field: Taxonomy, s: string): nat {
    if posts == [] then 0 else multiset(EntriesOrEmpty(posts[0], field))[Some(s)] + EntryCount(posts[1..], field, s)
  }

  /** Every listed term carries the slug of its original. */
  lemma {:induction false} TermsOfEntriesSlugs(entries: seq<Option<string>>)
    ensures forall t :: t in TermsOfEntries(entries) ==> t.slug == Slugify(t.original) && Some(t.original) in entries
  {
    if entries != [] {
      TermsOfEntriesSlugs(entries[1..]);
    }
  }

  lemma {:induction false} TermsOfSlugs(posts: seq<Post>, field: Taxonomy)
    ensures forall t :: t in TermsOf(posts, field) ==>
      t.slug == Slugify(t.original) && exists p :: p in posts && Some(t.original) in EntriesOrEmpty(p, field)
  {
    if posts != [] {
      TermsOfSlugs(posts[1..], field);
      TermsOfEntriesSlugs(EntriesOrEmpty(posts[0], field));
      forall t | t in TermsOf(posts, field)
        ensures t.slug == Slugify(t.original) && exists p :: p in posts && Some(t.original) in EntriesOrEmpty(p, field)
      {
        if t in TermsOfEntries(EntriesOrEmpty(posts[0], field)) {
          assert posts[0] in posts;
        } else {
          var p :| p in posts[1..] && Some(t.original) in EntriesOrEmpty(p, field);
          assert p in posts;
        }
      }
    }
  }

  /** No entry is merged with another: each occurrence of `s` gives its own term. */
  lemma {:induction false} TermsOfEntriesKeepsDuplicates(entries: seq<Option<string>>, s: string)
    ensures multiset(TermsOfEntries(entries))[Term(s, Slugify(s))] == multiset(entries)[Some(s)]
  {
    if entries != [] {
      var rest := TermsOfEntries(entries[1..]);
      TermsOfEntriesKeepsDuplicates(entries[1..], s);
      assert multiset(entries) == multiset{entries[0]} + multiset(entries[1..]) by {
        assert entries == [entries[0]] + entries[1..];
      }
      match entries[0]
      case None =>
        assert TermsOfEntries(entries) == rest;
      case Some(e) =>
        var term := Term(e, Slugify(e));
        assert TermsOfEntries(entries) == [term] + rest;
        assert multiset([term] + rest) == multiset{term} + multiset(rest);
        assert term == Term(s, Slugify(s)) <==> e == s;
    }
  }

  lemma {:induction false} TermsOfKeepsDuplicates(posts: seq<Post>, field: Taxonomy, s: string)
    ensures multiset(TermsOf(posts, field))[Term(s, Slugify(s))] == EntryCount(posts, field, s)
  {
    if posts != [] {
      TermsOfKeepsDuplicates(posts[1..], field, s);
      TermsOfEntriesKeepsDuplicates(EntriesOrEmpty(posts[0], field), s);
    }
  }

  /**
   * `getTags` / `getAuthors` list every entry of every non-draft post once per
   * occurrence, each with the slug of its original, and only such entries.
   */
  lemma ListedTermsContract(collection: seq<Post>, field: Taxonomy, s: string)
    ensures var posts := SortedPosts(collection, None, false, false).posts;
      var terms := TermsOf(posts, field);
      && (forall t :: t in terms ==>
            (t.slug == Slugify(t.original) && exists p :: p in collection && !p.draft && Some(t.original) in EntriesOrEmpty(p, field)))
      && multiset(terms)[Term(s, Slugify(s))] == EntryCount(posts, field, s)
      && multiset(posts) == multiset(Listed(collection, false, false))
  {
    var listed := Listed(collection, false, false);
    var posts := SortedPosts(collection, None, false, false).posts;
    SortedPostsContract(collection, None, false, false);
    PageOrdered(listed, None);
    TermsOfSlugs(posts, field);
    TermsOfKeepsDuplicates(posts, field, s);
  }

  // ---------------------------------------------------------------------
  // Grouping by slug
  // ---------------------------------------------------------------------

  /** One `forEach` step: bump the entry with the term's slug, or append a new one. */
  function Bump(r: seq<CountedTerm>, t: Term): seq<CountedTerm> {
    if r == [] then [CountedTerm(t.original, t.slug, 1)]
    else if r[0].slug == t.slug then [r[0].(count := r[0].count + 1)] + r[1..]
    else [r[0]] + Bump(r[1..], t)
  }

  /** The values of the map after the `forEach`, in insertion order. */
  function Tally(terms: seq<Term>): seq<CountedTerm> {
    if terms == [] then [] else Bump(Tally(terms[..|terms| - 1]), terms[|terms| - 1])
  }

  /** How many terms carry `slug`. */
  function Occurrences(terms: seq<Term>, slug: string): nat {
    if terms == [] then 0
    else Occurrences(terms[..|terms| - 1], slug) + if terms[|terms| - 1].slug == slug then 1 else 0
  }

  /** The index of the first term carrying `slug`, or `|terms|` when there is none. */
  function FirstIndex(terms: seq<Term>, slug: string): (i: nat)
    ensures i <= |terms|
    ensures i < |terms| ==> terms[i].slug == slug
    ensures forall k :: 0 <= k < i ==> terms[k].slug != slug
  {
    if terms == [] then 0
    else if terms[0].slug == slug then 0
    else 1 + FirstIndex(terms[1..], slug)
  }

  /** The count recorded for `slug`, 0 when no entry has it. */
  function CountOf(r: seq<CountedTerm>, slug: string): nat {
    if r == [] then 0 else if r[0].slug == slug then r[0].count else CountOf(r[1..], slug)
  }

  function Total(r: seq<CountedTerm>): nat {
    if r == [] then 0 else r[0].count + Total(r[1..])
  }

  predicate HasSlug(r: seq<CountedTerm>, slug: string) {
    exists k :: 0 <= k < |r| && r[k].slug == slug
  }

  predicate DistinctSlugs(r: seq<CountedTerm>) {
    forall i, j :: 0 <= i < j < |r| ==> r[i].slug != r[j].slug
  }

  // Bump

  lemma {:induction false} BumpShape(r: seq<CountedTerm>, t: Term)
    ensures |Bump(r, t)| == if HasSlug(r, t.slug) then |r| else |r| + 1
    ensures forall k :: 0 <= k < |r| ==> Bump(r, t)[k].slug == r[k].slug && Bump(r, t)[k].original == r[k].original
    ensures !HasSlug(r, t.slug) ==> Bump(r, t)[|r|] == CountedTerm(t.original, t.slug, 1)
  {
    if r != [] && r[0].slug != t.slug {
      BumpShape(r[1..], t);
      assert HasSlug(r, t.slug) <==> HasSlug(r[1..], t.slug) by {
        if HasSlug(r, t.slug) {
          var k :| 0 <= k < |r| && r[k].slug == t.slug;
          assert r[1..][k - 1].slug == t.slug;
        }
        if HasSlug(r[1..], t.slug) {
          var k :| 0 <= k < |r[1..]| && r[1..][k].slug == t.slug;
          assert r[k + 1].slug == t.slug;
        }
      }
    } else if r != [] {
      assert r[0].slug == t.slug;
    }
  }

  /** With distinct slugs, bumping an existing slug increments that one entry in place. */
  lemma {:induction false} BumpAt(r: seq<CountedTerm>, t: Term, k: nat)
    requires DistinctSlugs(r)
    requires k < |r| && r[k].slug == t.slug
    ensures Bump(r, t) == r[k := r[k].(count := r[k].count + 1)]
  {
    if k > 0 {
      assert r[0].slug != t.slug;
      assert DistinctSlugs(r[1..]);
      BumpAt(r[1..], t, k - 1);
      assert r[1..][k - 1 := r[k].(count := r[k].count + 1)] == r[k := r[k].(count := r[k].count + 1)][1..];
    }
  }

  /** A new slug is appended with count 1. */
  lemma {:induction false} BumpAppends(r: seq<CountedTerm>, t: Term)
    requires !HasSlug(r, t.slug)
    ensures Bump(r, t) == r + [CountedTerm(t.original, t.slug, 1)]
  {
    if r != [] {
      assert r[0].slug != t.slug;
      forall k | 0 <= k < |r[1..]| ensures r[1..][k].slug != t.slug {
        assert r[1..][k] == r[k + 1];
      }
      BumpAppends(r[1..], t);
    }
  }

  lemma {:induction false} CountOfBump(r: seq<CountedTerm>, t: Term, s: string)
    ensures CountOf(Bump(r, t), s) == CountOf(r, s) + if s == t.slug then 1 else 0
  {
    if r != [] && r[0].slug != t.slug {
      CountOfBump(r[1..], t, s);
    }
  }

  lemma {:induction false} TotalBump(r: seq<CountedTerm>, t: Term)
    ensures Total(Bump(r, t)) == Total(r) + 1
  {
    if r != [] && r[0].slug != t.slug {
      TotalBump(r[1..], t);
    }
  }

  // Tally

  /** Each slug appears in the count at most once. */
  lemma {:induction false} TallyDistinct(terms: seq<Term>)
    ensures DistinctSlugs(Tally(terms))
  {
    if terms != [] {
      var r, t := Tally(terms[..|terms| - 1]), terms[|terms| - 1];
      TallyDistinct(terms[..|terms| - 1]);
      BumpShape(r, t);
      var b := Bump(r, t);
      forall i, j | 0 <= i < j < |b| ensures b[i].slug != b[j].slug {
        if j == |r| {
          assert !HasSlug(r, t.slug);
          assert r[i].slug != t.slug;
        }
      }
    }
  }

  /** The count recorded for each slug is the number of input entries with that slug. */
  lemma {:induction false} TallyCounts(terms: seq<Term>, s: string)
    ensures CountOf(Tally(terms), s) == Occurrences(terms, s)
  {
    if terms != [] {
      TallyCounts(terms[..|terms| - 1], s);
      CountOfBump(Tally(terms[..|terms| - 1]), terms[|terms| - 1], s);
    }
  }

  /** Every recorded count is at least one. */
  lemma {:induction false} TallyPositive(terms: seq<Term>)
    ensures forall k :: 0 <= k < |Tally(terms)| ==> Tally(terms)[k].count >= 1
  {
    if terms != [] {
      var r, t := Tally(terms[..|terms| - 1]), terms[|terms| - 1];
      TallyPositive(terms[..|terms| - 1]);
      TallyDistinct(terms[..|terms| - 1]);
      if HasSlug(r, t.slug) {
        var k :| 0 <= k < |r| && r[k].slug == t.slug;
        BumpAt(r, t, k);
      } else {
        BumpAppends(r, t);
      }
    }
  }

  /** The counts add up to the number of input entries. */
  lemma {:induction false} TallySum(terms: seq<Term>)
    ensures Total(Tally(terms)) == |terms|
  {
    if terms != [] {
      TallySum(terms[..|terms| - 1]);
      TotalBump(Tally(terms[..|terms| - 1]), terms[|terms| - 1]);
    }
  }

  /** A slug has an entry in the count exactly when some input entry carries it. */
  lemma TallyCovers(terms: seq<Term>, s: string)
    ensures HasSlug(Tally(terms), s) <==> Occurrences(terms, s) > 0
  {
    var r := Tally(terms);
    TallyCounts(terms, s);
    TallyPositive(terms);
    CountOfFound(r, s);
  }

  /** `CountOf` reads the count of the first entry with the slug. */
  lemma {:induction false} CountOfFound(r: seq<CountedTerm>, s: string)
    requires forall k :: 0 <= k < |r| ==> r[k].count >= 1
    ensures HasSlug(r, s) <==> CountOf(r, s) > 0
  {
    if r != [] && r[0].slug != s {
      CountOfFound(r[1..], s);
      if HasSlug(r, s) {
        var k :| 0 <= k < |r| && r[k].slug == s;
        assert r[1..][k - 1].slug == s;
      }
      if HasSlug(r[1..], s) {
        var k :| 0 <= k < |r[1..]| && r[1..][k].slug == s;
        assert r[k + 1].slug == s;
      }
    } else if r != [] {
      assert r[0].slug == s;
    }
  }

  /** An index that has the defining properties of the first occurrence is it. */
  lemma {:induction false} FirstIndexUnique(terms: seq<Term>, slug: string, i: nat)
    requires i <= |terms|
    requires i < |terms| ==> terms[i].slug == slug
    requires forall k :: 0 <= k < i ==> terms[k].slug != slug
    ensures FirstIndex(terms, slug) == i
  {
    if terms != [] && terms[0].slug != slug {
      FirstIndexUnique(terms[1..], slug, i - 1);
    }
  }

  /** Appending a term leaves a first occurrence that is already there where it is. */
  lemma FirstIndexSnocKept(init: seq<Term>, t: Term, slug: string)
    requires FirstIndex(init, slug) < |init|
    ensures FirstIndex(init + [t], slug) == FirstIndex(init, slug)
  {
    var f := FirstIndex(init, slug);
    assert (init + [t])[f] == init[f];
    FirstIndexUnique(init + [t], slug, f);
  }

  /** Appending a term with a slug not seen before makes it the first occurrence. */
  lemma FirstIndexSnocNew(init: seq<Term>, t: Term)
    requires FirstIndex(init, t.slug) == |init|
    ensures FirstIndex(init + [t], t.slug) == |init|
  {
    FirstIndexUnique(init + [t], t.slug, |init|);
  }

  lemma OccurrencesAbsent(terms: seq<Term>, slug: string)
    ensures Occurrences(terms, slug) == 0 <==> FirstIndex(terms, slug) == |terms|
  {
    OccurrencesNone(terms, slug);
  }

  lemma {:induction false} OccurrencesNone(terms: seq<Term>, slug: string)
    ensures Occurrences(terms, slug) == 0 <==> forall k :: 0 <= k < |terms| ==> terms[k].slug != slug
  {
    if terms != [] {
      var init := terms[..|terms| - 1];
      OccurrencesNone(init, slug);
      assert forall k :: 0 <= k < |init| ==> init[k] == terms[k];
    }
  }

  /**
   * Each entry of `r` takes its original from the first term with its slug,
   * and the entries come in the order of those first occurrences.
   */
  ghost predicate InFirstOccurrenceOrder(terms: seq<Term>, r: seq<CountedTerm>) {
    KeepsFirstOriginals(terms, r) && OrderedByFirstIndex(terms, r)
  }

  /** Each counted slug occurs in the terms, with its original taken from the first occurrence. */
  ghost predicate KeepsFirstOriginals(terms: seq<Term>, r: seq<CountedTerm>) {
    forall k :: 0 <= k < |r| ==>
      FirstIndex(terms, r[k].slug) < |terms| && terms[FirstIndex(terms, r[k].slug)].original == r[k].original
  }

  /** The counted slugs come in the order of their first occurrences. */
  ghost predicate OrderedByFirstIndex(terms: seq<Term>, r: seq<CountedTerm>) {
    forall k1, k2 :: 0 <= k1 < k2 < |r| ==> FirstIndex(terms, r[k1].slug) < FirstIndex(terms, r[k2].slug)
  }

  /** The count keeps the first original of each slug and lists slugs in order of first occurrence. */
  lemma {:induction false} TallyFirstOccurrence(terms: seq<Term>)
    ensures InFirstOccurrenceOrder(terms, Tally(terms))
  {
    if terms != [] {
      var init, t := terms[..|terms| - 1], terms[|terms| - 1];
      assert terms == init + [t];
      TallyFirstOccurrence(init);
      TallyFirstStep(init, t);
    }
  }

  /** The step of TallyFirstOccurrence: one more term keeps the property. */
  lemma TallyFirstStep(init: seq<Term>, t: Term)
    requires InFirstOccurrenceOrder(init, Tally(init))
    ensures InFirstOccurrenceOrder(init + [t], Bump(Tally(init), t))
  {
    if HasSlug(Tally(init), t.slug) {
      TallyFirstStepSeen(init, t);
    } else {
      TallyFirstStepNew(init, t);
    }
  }

  lemma TallyFirstStepSeen(init: seq<Term>, t: Term)
    requires InFirstOccurrenceOrder(init, Tally(init))
    requires HasSlug(Tally(init), t.slug)
    ensures InFirstOccurrenceOrder(init + [t], Bump(Tally(init), t))
  {
    var r := Tally(init);
    BumpShape(r, t);
    FirstOrderSnocKept(init, t, r, Bump(r, t));
  }

  lemma TallyFirstStepNew(init: seq<Term>, t: Term)
    requires InFirstOccurrenceOrder(init, Tally(init))
    requires !HasSlug(Tally(init), t.slug)
    ensures InFirstOccurrenceOrder(init + [t], Bump(Tally(init), t))
  {
    var r := Tally(init);
    BumpAppends(r, t);
    NewSlugFirstIndex(init, t);
    FirstOrderSnocNew(init, t, r);
  }

  /** A slug the count lacks occurs nowhere in the terms. */
  lemma NewSlugFirstIndex(init: seq<Term>, t: Term)
    requires !HasSlug(Tally(init), t.slug)
    ensures FirstIndex(init, t.slug) == |init|
  {
    TallyCovers(init, t.slug);
    OccurrencesAbsent(init, t.slug);
  }

  /** A term whose slug is already counted changes no original and no first occurrence. */
  lemma FirstOrderSnocKept(init: seq<Term>, t: Term, r: seq<CountedTerm>, b: seq<CountedTerm>)
    requires InFirstOccurrenceOrder(init, r)
    requires |b| == |r|
    requires forall k :: 0 <= k < |r| ==> b[k].slug == r[k].slug && b[k].original == r[k].original
    ensures InFirstOccurrenceOrder(init + [t], b)
  {
    var terms := init + [t];
    forall k | 0 <= k < |r|
      ensures FirstIndex(terms, b[k].slug) == FirstIndex(init, r[k].slug) < |init|
      ensures terms[FirstIndex(terms, b[k].slug)].original == b[k].original
    {
      FirstIndexKeptOriginal(init, t, r, k);
    }
  }

  /** A term with a new slug is appended after every earlier first occurrence. */
  lemma FirstOrderSnocNew(init: seq<Term>, t: Term, r: seq<CountedTerm>)
    requires InFirstOccurrenceOrder(init, r)
    requires FirstIndex(init, t.slug) == |init|
    ensures InFirstOccurrenceOrder(init + [t], r + [CountedTerm(t.original, t.slug, 1)])
  {
    FirstIndexSnocNew(init, t);
    NewOriginalKept(init, t, r);
    NewSlugOrdered(init, t, r);
  }

  lemma NewOriginalKept(init: seq<Term>, t: Term, r: seq<CountedTerm>)
    requires KeepsFirstOriginals(init, r)
    requires FirstIndex(init + [t], t.slug) == |init|
    ensures KeepsFirstOriginals(init + [t], r + [CountedTerm(t.original, t.slug, 1)])
  {
    var terms := init + [t];
    var b := r + [CountedTerm(t.original, t.slug, 1)];
    forall k | 0 <= k < |b|
      ensures FirstIndex(terms, b[k].slug) < |terms|
      ensures terms[FirstIndex(terms, b[k].slug)].original == b[k].original
    {
      if k < |r| {
        FirstIndexKeptOriginal(init, t, r, k);
      } else {
        assert b[k].slug == t.slug && terms[|init|] == t;
      }
    }
  }

  lemma FirstIndexKeptOriginal(init: seq<Term>, t: Term, r: seq<CountedTerm>, k: nat)
    requires KeepsFirstOriginals(init, r)
    requires k < |r|
    ensures FirstIndex(init + [t], r[k].slug) == FirstIndex(init, r[k].slug) < |init|
    ensures (init + [t])[FirstIndex(init, r[k].slug)].original == r[k].original
  {
    var f := FirstIndex(init, r[k].slug);
    FirstIndexSnocKept(init, t, r[k].slug);
    assert (init + [t])[f] == init[f];
  }

  lemma NewSlugOrdered(init: seq<Term>, t: Term, r: seq<CountedTerm>)
    requires KeepsFirstOriginals(init, r) && OrderedByFirstIndex(init, r)
    requires FirstIndex(init + [t], t.slug) == |init|
    ensures OrderedByFirstIndex(init + [t], r + [CountedTerm(t.original, t.slug, 1)])
  {
    var terms := init + [t];
    var b := r + [CountedTerm(t.original, t.slug, 1)];
    forall k1, k2 | 0 <= k1 < k2 < |b|
      ensures FirstIndex(terms, b[k1].slug) < FirstIndex(terms, b[k2].slug)
    {
      FirstIndexKeptOriginal(init, t, r, k1);
      if k2 < |r| {
        FirstIndexKeptOriginal(init, t, r, k2);
        assert FirstIndex(init, r[k1].slug) < FirstIndex(init, r[k2].slug);
      } else {
        assert b[k2].slug == t.slug;
      }
    }
  }

  // ---------------------------------------------------------------------
  // The counting loop
  // ---------------------------------------------------------------------

  /** The map and its insertion order hold exactly the entries of `r`, in order. */
  ghost predicate Mirrors(m: map<string, CountedTerm>, order: seq<string>, r: seq<CountedTerm>) {
    && |order| == |r|
    && (forall k :: 0 <= k < |r| ==> order[k] in m && m[order[k]] == r[k] && r[k].slug == order[k])
    && (forall s :: s in m ==> s in order)
  }

  /** Incrementing the entry of a slug already in the map mirrors BumpAt. */
  lemma MirrorsIncrement(m: map<string, CountedTerm>, order: seq<string>, r: seq<CountedTerm>, t: Term)
    requires Mirrors(m, order, r) && DistinctSlugs(r)
    requires t.slug in m
    ensures Mirrors(m[t.slug := m[t.slug].(count := m[t.slug].count + 1)], order, Bump(r, t))
  {
    var k :| 0 <= k < |order| && order[k] == t.slug;
    BumpAt(r, t, k);
    var m' := m[t.slug := m[t.slug].(count := m[t.slug].count + 1)];
    var b := Bump(r, t);
    forall j | 0 <= j < |b|
      ensures order[j] in m' && m'[order[j]] == b[j] && b[j].slug == order[j]
    {
      if j != k {
        assert r[j].slug != r[k].slug;
      }
    }
  }

  /** Adding a slug the map lacks mirrors BumpAppends. */
  lemma MirrorsAdd(m: map<string, CountedTerm>, order: seq<string>, r: seq<CountedTerm>, t: Term)
    requires Mirrors(m, order, r)
    requires t.slug !in m
    ensures !HasSlug(r, t.slug)
    ensures Mirrors(m[t.slug := CountedTerm(t.original, t.slug, 1)], order + [t.slug], Bump(r, t))
  {
    forall k | 0 <= k < |r| ensures r[k].slug != t.slug {
      assert order[k] in m;
    }
    BumpAppends(r, t);
  }

  /** Grouping one more term is one more `forEach` step. */
  lemma TallySnoc(terms: seq<Term>, i: nat)
    requires i < |terms|
    ensures Tally(terms[..i + 1]) == Bump(Tally(terms[..i]), terms[i])
  {
    assert terms[..i + 1][..i] == terms[..i];
  }

  /**
   * `tags.forEach(...)` over a `Map` keyed by slug, then `Array.from(map.values())`:
   * a seen slug has its count incremented in place, a new one is added with count 1.
   */
  method CountBySlug(terms: seq<Term>) returns (counted: seq<CountedTerm>)
    ensures counted == Tally(terms)
  {
    var slugMap: map<string, CountedTerm> := map[];
    var order: seq<string> := [];
    for i := 0 to |terms|
      invariant Mirrors(slugMap, order, Tally(terms[..i]))
    {
      var t := terms[i];
      TallyDistinct(terms[..i]);
      TallySnoc(terms, i);
      if t.slug in slugMap {
        MirrorsIncrement(slugMap, order, Tally(terms[..i]), t);
        slugMap := slugMap[t.slug := slugMap[t.slug].(count := slugMap[t.slug].count + 1)];
      } else {
        MirrorsAdd(slugMap, order, Tally(terms[..i]), t);
        slugMap := slugMap[t.slug := CountedTerm(t.original, t.slug, 1)];
        order := order + [t.slug];
      }
    }
    assert terms[..|terms|] == terms;
    counted := ValuesInOrder(slugMap, order);
  }

  /** `Array.from(map.values())`: the entries of the map in the insertion order of their keys. */
  method ValuesInOrder(m: map<string, CountedTerm>, order: seq<string>) returns (values: seq<CountedTerm>)
    requires forall k :: 0 <= k < |order| ==> order[k] in m
    ensures |values| == |order|
    ensures forall k :: 0 <= k < |order| ==> values[k] == m[order[k]]
  {
    values := [];
    for k := 0 to |order|
      invariant |values| == k
      invariant forall j :: 0 <= j < k ==> values[j] == m[order[j]]
    {
      values := values + [m[order[k]]];
    }
  }

  // ---------------------------------------------------------------------
  // getUniqueTagsWithCount and getUniqueAuthorsWithCount
  // ---------------------------------------------------------------------

  /** Code-point lexicographic order on strings: the fixed order used in place of `localeCompare`. */
  predicate LexLe(a: string, b: string) {
    a == [] || (b != [] && (a[0] < b[0] || (a[0] == b[0] && LexLe(a[1..], b[1..]))))
  }

  lemma {:induction false} LexLeTotal(a: string, b: string)
    ensures LexLe(a, b) || LexLe(b, a)
  {
    if a != [] && b != [] && a[0] == b[0] {
      LexLeTotal(a[1..], b[1..]);
    }
  }

  lemma {:induction false} LexLeTransitive(a: string, b: string, c: string)
    requires LexLe(a, b) && LexLe(b, c)
    ensures LexLe(a, c)
  {
    if a != [] && a[0] == b[0] && b[0] == c[0] {
      LexLeTransitive(a[1..], b[1..], c[1..]);
    }
  }

  /** The comparator `(a, b) => a.original.localeCompare(b.original)`, read as "may stay before". */
  predicate OriginalOrder(x: CountedTerm, y: CountedTerm) {
    LexLe(x.original, y.original)
  }

  lemma OriginalOrderIsTotalPreorder()
    ensures IsTotalPreorder(OriginalOrder)
  {
    forall x, y ensures OriginalOrder(x, y) || OriginalOrder(y, x) {
      LexLeTotal(x.original, y.original);
    }
    forall x, y, z | OriginalOrder(x, y) && OriginalOrder(y, z) ensures OriginalOrder(x, z) {
      LexLeTransitive(x.original, y.original, z.original);
    }
  }

  method GetUniqueTagsWithCount(tags: seq<Term>) returns (r: seq<CountedTerm>)
    ensures r == SortBy(Tally(tags), OriginalOrder)
  {
    var counted := CountBySlug(tags);
    var entries := new CountedTerm[|counted|](i requires 0 <= i < |counted| => counted[i]);
    assert entries[..] == counted;
    SortInPlace(entries, OriginalOrder);
    r := entries[..];
  }

  method GetUniqueAuthorsWithCount(authors: seq<Term>) returns (r: seq<CountedTerm>)
    ensures r == Tally(authors)
  {
    r := CountBySlug(authors);
  }

  /** The tag counts are the grouped counts, sorted by original. */
  lemma UniqueTagsContract(tags: seq<Term>)
    ensures var r := SortBy(Tally(tags), OriginalOrder);
      && Sorted(r, OriginalOrder)
      && multiset(r) == multiset(Tally(tags))
      && (forall c :: c in r <==> c in Tally(tags))
  {
    OriginalOrderIsTotalPreorder();
    SortBySorts(Tally(tags), OriginalOrder);
    SortByPermutes(Tally(tags), OriginalOrder);
    var r := SortBy(Tally(tags), OriginalOrder);
    forall c ensures c in r <==> c in Tally(tags) {
      assert c in r <==> c in multiset(r);
      assert c in Tally(tags) <==> c in multiset(Tally(tags));
    }
  }

  /**
   * The author counts: one entry per distinct slug, counting every occurrence
   * of it, keeping the first original seen, in order of first occurrence.
   */
  lemma UniqueAuthorsContract(authors: seq<Term>)
    ensures var r := Tally(authors);
      && DistinctSlugs(r)
      && (forall s :: CountOf(r, s) == Occurrences(authors, s))
      && (forall k :: 0 <= k < |r| ==> r[k].count >= 1)
      && Total(r) == |authors|
      && InFirstOccurrenceOrder(authors, r)
  {
    TallyDistinct(authors);
    forall s ensures CountOf(Tally(authors), s) == Occurrences(authors, s) {
      TallyCounts(authors, s);
    }
    TallyPositive(authors);
    TallySum(authors);
    TallyFirstOccurrence(authors);
  }
}
