/**
 * The post queries of the content utilities (src/utils/content.ts).
 *
 * The content collection is an input sequence of posts in the order the
 * collection yields them; `getCollection` with a filter callback becomes a
 * filtering function over it. Each query filters, sorts newest first with
 * the in-place stable sort of module Sorting, counts before truncating, and
 * truncates only when `limit` is truthy.
 */
module Content {
  import opened Common
  import opened Presentation
  import opened Sorting

  /** The front matter of one blog post that the queries read. */
  datatype Post = Post(
    id: string,
    draft: bool,
    featured: bool,
    add_to_homepage_slider: bool,
    pub_date: int,
    tags: Option<seq<Option<string>>>,
    authors: Option<seq<Option<string>>>)

  /** What a query returns: a page of posts and the number of posts that passed the filter. */
  datatype PostQuery = PostQuery(posts: seq<Post>, total_posts: nat)

  /** The two taxonomies a post carries. */
  datatype Taxonomy = Tags | Authors

  function Entries(p: Post, field: Taxonomy): Option<seq<Option<string>>> {
    match field
    case Tags => p.tags
    case Authors => p.authors
  }

  // ---------------------------------------------------------------------
  // Sorting newest first, and the page
  // ---------------------------------------------------------------------

  /**
   * The comparator `(a, b) => b.pub_date - a.pub_date` allows `x` to stay
   * before `y` exactly when it returns zero or less for them.
   */
  predicate NewerOrSame(x: Post, y: Post) {
    x.pub_date >= y.pub_date
  }

  lemma NewerOrSameIsTotalPreorder()
    ensures IsTotalPreorder(NewerOrSame)
  {
  }

  /**
   * Posts published at the same time keep the order the collection gave
   * them: the comparator ties exactly such posts, and the sort is stable.
   */
  lemma NewestFirstKeepsSameDateOrder(posts: seq<Post>, x: Post)
    ensures forall y :: Tied(x, y, NewerOrSame) <==> y.pub_date == x.pub_date
    ensures Ties(SortBy(posts, NewerOrSame), x, NewerOrSame) == Ties(posts, x, NewerOrSame)
  {
    NewerOrSameIsTotalPreorder();
    SortByStable(posts, NewerOrSame, x);
  }

  /**
   * The end index `slice(0, end)` uses on a sequence of length `len`:
   * a negative end counts from the back, and the result is clamped to `[0, len]`.
   */
  function SliceEnd(len: nat, end: int): (r: nat)
    ensures r <= len
    ensures 0 <= end ==> r <= end && (r == end || r == len)
    ensures end < 0 ==> len + end <= r && (r == 0 || r == len + end)
  {
    if end < 0 then (if len + end > 0 then len + end else 0)
    else if end < len then end
    else len
  }

  /** `limit ? posts.slice(0, limit) : posts`: an absent or zero limit keeps everything. */
  function Truncate<T>(s: seq<T>, limit: Option<int>): (r: seq<T>)
    ensures |r| <= |s| && r == s[..|r|]
    ensures limit == None || limit == Some(0) ==> r == s
    ensures limit.Some? && limit.value > 0 ==> |r| == if limit.value < |s| then limit.value else |s|
    ensures limit.Some? && limit.value < 0 ==> |r| == if |s| + limit.value > 0 then |s| + limit.value else 0
  {
    match limit
    case None => s
    case Some(n) => if n == 0 then s else s[..SliceEnd(|s|, n)]
  }

  /** The query result for the posts a filter selected. */
  function Page(selected: seq<Post>, limit: Option<int>): PostQuery {
    PostQuery(Truncate(SortBy(selected, NewerOrSame), limit), |selected|)
  }

  /** The page is newest first and a prefix of a rearrangement of the selected posts. */
  lemma PageOrdered(selected: seq<Post>, limit: Option<int>)
    ensures var q := Page(selected, limit);
      && Sorted(q.posts, NewerOrSame)
      && q.posts == SortBy(selected, NewerOrSame)[..|q.posts|]
      && multiset(SortBy(selected, NewerOrSame)) == multiset(selected)
  {
    SortByPermutes(selected, NewerOrSame);
    NewerOrSameIsTotalPreorder();
    SortBySorts(selected, NewerOrSame);
  }

  /** Every post on the page is one of the selected posts, and none occurs more often than there. */
  lemma PageSelects(selected: seq<Post>, limit: Option<int>)
    ensures var q := Page(selected, limit);
      && multiset(q.posts) <= multiset(selected)
      && (forall p :: p in q.posts ==> p in selected)
  {
    var sorted := SortBy(selected, NewerOrSame);
    var q := Page(selected, limit);
    SortByPermutes(selected, NewerOrSame);
    assert sorted == q.posts + sorted[|q.posts|..];
    assert multiset(sorted) == multiset(q.posts) + multiset(sorted[|q.posts|..]);
    forall p | p in q.posts ensures p in selected {
      assert p in multiset(q.posts);
    }
  }

  /** The total counts every selected post; the page holds all of them unless a truthy limit cuts it. */
  lemma PageCounts(selected: seq<Post>, limit: Option<int>)
    ensures var q := Page(selected, limit);
      && q.total_posts == |selected|
      && |q.posts| <= q.total_posts
      && (limit == None || limit == Some(0) ==> |q.posts| == q.total_posts)
      && (limit.Some? && limit.value > 0 ==>
            |q.posts| == if limit.value < q.total_posts then limit.value else q.total_posts)
  {
    SortByPermutes(selected, NewerOrSame);
  }

  /** `posts.sort(...)` on the fetched array, then the count and the truncation. */
  method SortAndPage(selected: seq<Post>, limit: Option<int>) returns (q: PostQuery)
    ensures q == Page(selected, limit)
  {
    var posts := new Post[|selected|](i requires 0 <= i < |selected| => selected[i]);
    assert posts[..] == selected;
    SortInPlace(posts, NewerOrSame);
    var total_posts := posts.Length;
    q := PostQuery(Truncate(posts[..], limit), total_posts);
  }

  // ---------------------------------------------------------------------
  // getSortedPosts
  // ---------------------------------------------------------------------

  /** The filter callback of `getSortedPosts`. */
  predicate IsListed(p: Post, featured: bool, homepage_slider: bool) {
    !p.draft && (!featured || p.featured) && (!homepage_slider || p.add_to_homepage_slider)
  }

  /** `getCollection("blog", filter)` with the filter of `getSortedPosts`. */
  function Listed(posts: seq<Post>, featured: bool, homepage_slider: bool): seq<Post> {
    if posts == [] then []
    else
      var rest := Listed(posts[1..], featured, homepage_slider);
      if IsListed(posts[0], featured, homepage_slider) then [posts[0]] + rest else rest
  }

  /** The collection keeps every listed post, as often as it occurs, and nothing else. */
  lemma {:induction false} ListedSelects(posts: seq<Post>, featured: bool, homepage_slider: bool)
    ensures forall p ::
      multiset(Listed(posts, featured, homepage_slider))[p] == if IsListed(p, featured, homepage_slider) then multiset(posts)[p] else 0
  {
    if posts != [] {
      ListedSelects(posts[1..], featured, homepage_slider);
      assert posts == [posts[0]] + posts[1..];
    }
  }

  /** The value `getSortedPosts` returns. */
  function SortedPosts(collection: seq<Post>, limit: Option<int>, featured: bool, homepage_slider: bool): PostQuery {
    Page(Listed(collection, featured, homepage_slider), limit)
  }

  method GetSortedPosts(collection: seq<Post>, limit: Option<int>, featured: bool, homepage_slider: bool)
    returns (q: PostQuery)
    ensures q == SortedPosts(collection, limit, featured, homepage_slider)
  {
    q := SortAndPage(Listed(collection, featured, homepage_slider), limit);
  }

  /**
   * `getSortedPosts` returns only non-draft posts, featured ones when
   * `featured` is set and slider ones when `homepage_slider` is set, newest
   * first, and counts every such post of the collection.
   */
  lemma SortedPostsContract(collection: seq<Post>, limit: Option<int>, featured: bool, homepage_slider: bool)
    ensures var q := SortedPosts(collection, limit, featured, homepage_slider);
      && (forall p :: p in q.posts ==> p in collection && !p.draft)
      && (featured ==> forall p :: p in q.posts ==> p.featured)
      && (homepage_slider ==> forall p :: p in q.posts ==> p.add_to_homepage_slider)
      && Sorted(q.posts, NewerOrSame)
      && q.total_posts == |Listed(collection, featured, homepage_slider)|
      && |q.posts| <= q.total_posts
      && (limit == None || limit == Some(0) ==> |q.posts| == q.total_posts)
  {
    var listed := Listed(collection, featured, homepage_slider);
    var q := SortedPosts(collection, limit, featured, homepage_slider);
    PageOrdered(listed, limit);
    PageSelects(listed, limit);
    PageCounts(listed, limit);
    ListedSelects(collection, featured, homepage_slider);
    forall p | p in q.posts ensures p in collection && IsListed(p, featured, homepage_slider) {
      assert multiset(listed)[p] > 0;
    }
  }

  // ---------------------------------------------------------------------
  // getPostWithSiblings
  // ---------------------------------------------------------------------

  datatype Siblings = Siblings(previous_post: Option<Post>, next_post: Option<Post>)

  /** `posts[k] || null`: a post object is truthy, an index outside the array gives `undefined`. */
  function PostAt(posts: seq<Post>, k: int): Option<Post> {
    if 0 <= k < |posts| then Some(posts[k]) else None
  }

  /**
   * In a newest-first list the previous post is the older one after `index`
   * and the next post the newer one before it; either is null past the ends.
   */
  function GetPostWithSiblings(posts: seq<Post>, index: int): (r: Siblings)
    ensures r.previous_post.Some? <==> -1 <= index < |posts| - 1
    ensures r.previous_post.Some? ==> r.previous_post.value == posts[index + 1]
    ensures r.next_post.Some? <==> 1 <= index <= |posts|
    ensures r.next_post.Some? ==> r.next_post.value == posts[index - 1]
  {
    Siblings(PostAt(posts, index + 1), PostAt(posts, index - 1))
  }

  /** Siblings are mutual: the post after `i` has `i` as its next post. */
  lemma SiblingsAreMutual(posts: seq<Post>, i: nat)
    requires i + 1 < |posts|
    ensures GetPostWithSiblings(posts, i).previous_post == Some(posts[i + 1])
    ensures GetPostWithSiblings(posts, i + 1).next_post == Some(posts[i])
  {
  }

  /** The newest post has no next post and the oldest no previous one. */
  lemma SiblingsAtTheEnds(posts: seq<Post>)
    requires posts != []
    ensures GetPostWithSiblings(posts, 0).next_post == None
    ensures GetPostWithSiblings(posts, |posts| - 1).previous_post == None
  {
  }

  // ---------------------------------------------------------------------
  // getPostsByTag and getPostsByAuthor
  // ---------------------------------------------------------------------

  /** `tag ? tag.toLowerCase() : null`: an absent or empty parameter selects every post. */
  function Needle(param: Option<string>): Option<string> {
    if param.Some? && param.value != "" then Some(LowerCase(param.value)) else None
  }

  /**
   * `entries.some(e => e.toLowerCase() === needle)`: stops at the first match;
   * a null entry reached before any match throws.
   */
  function SomeEntryMatches(entries: seq<Option<string>>, needle: string): Result<bool> {
    if entries == [] then Ok(false)
    else match entries[0]
      case None => Err(TypeError)
      case Some(e) => if LowerCase(e) == needle then Ok(true) else SomeEntryMatches(entries[1..], needle)
  }

  /** The filter callback of `getPostsByTag` (field `Tags`) and `getPostsByAuthor` (field `Authors`). */
  function MatchesTerm(p: Post, needle: Option<string>, field: Taxonomy): Result<bool> {
    if p.draft then Ok(false)
    else if needle.None? then Ok(true)
    else match Entries(p, field)
      case None => Ok(false)
      case Some(entries) => SomeEntryMatches(entries, needle.value)
  }

  /** `getCollection` with a filter that may throw: the first error aborts the whole collection. */
  function SelectByTerm(posts: seq<Post>, needle: Option<string>, field: Taxonomy): Result<seq<Post>> {
    if posts == [] then Ok([])
    else match MatchesTerm(posts[0], needle, field)
      case Err(e) => Err(e)
      case Ok(keep) =>
        match SelectByTerm(posts[1..], needle, field)
        case Err(e) => Err(e)
        case Ok(rest) => Ok(if keep then [posts[0]] + rest else rest)
  }

  /** The value `getPostsByTag` / `getPostsByAuthor` returns, or the error it throws. */
  function PostsByTerm(collection: seq<Post>, param: Option<string>, limit: Option<int>, field: Taxonomy)
    : Result<PostQuery>
  {
    match SelectByTerm(collection, Needle(param), field)
    case Err(e) => Err(e)
    case Ok(selected) => Ok(Page(selected, limit))
  }

  method QueryByTerm(collection: seq<Post>, param: Option<string>, limit: Option<int>, field: Taxonomy)
    returns (r: Result<PostQuery>)
    ensures r == PostsByTerm(collection, param, limit, field)
  {
    var selected := SelectByTerm(collection, Needle(param), field);
    if selected.Err? {
      return Err(selected.error);
    }
    var q := SortAndPage(selected.value, limit);
    return Ok(q);
  }

  method GetPostsByTag(collection: seq<Post>, tag: Option<string>, limit: Option<int>)
    returns (r: Result<PostQuery>)
    ensures r == PostsByTerm(collection, tag, limit, Tags)
  {
    r := QueryByTerm(collection, tag, limit, Tags);
  }

  method GetPostsByAuthor(collection: seq<Post>, author: Option<string>, limit: Option<int>)
    returns (r: Result<PostQuery>)
    ensures r == PostsByTerm(collection, author, limit, Authors)
  {
    r := QueryByTerm(collection, author, limit, Authors);
  }

  /** When every entry is present, `some` answers whether one of them equals the needle case-insensitively. */
  lemma {:induction false} SomeEntryMatchesPresent(entries: seq<Option<string>>, needle: string)
    requires forall i :: 0 <= i < |entries| ==> entries[i].Some?
    ensures SomeEntryMatches(entries, needle)
      == Ok(exists i :: 0 <= i < |entries| && LowerCase(entries[i].value) == needle)
  {
    if entries != [] {
      SomeEntryMatchesPresent(entries[1..], needle);
      if LowerCase(entries[0].value) != needle {
        assert forall i :: 1 <= i < |entries| ==> entries[i] == entries[1..][i - 1];
      }
    }
  }

  /** `some` throws exactly when a null entry comes before any match. */
  lemma {:induction false} SomeEntryMatchesThrows(entries: seq<Option<string>>, needle: string)
    ensures SomeEntryMatches(entries, needle).Err? <==>
      exists i :: 0 <= i < |entries| && entries[i].None?
        && forall k :: 0 <= k < i ==> entries[k].Some? && LowerCase(entries[k].value) != needle
  {
    if entries != [] {
      SomeEntryMatchesThrows(entries[1..], needle);
      var tail := entries[1..];
      if entries[0].Some? && LowerCase(entries[0].value) != needle {
        if SomeEntryMatches(entries, needle).Err? {
          var i :| 0 <= i < |tail| && tail[i].None?
            && forall k :: 0 <= k < i ==> tail[k].Some? && LowerCase(tail[k].value) != needle;
          assert entries[i + 1].None?;
          assert forall k :: 0 <= k < i + 1 ==> entries[k].Some? && LowerCase(entries[k].value) != needle by {
            forall k | 1 <= k < i + 1 ensures entries[k] == tail[k - 1] {}
          }
        } else {
          forall i | 0 <= i < |entries| && entries[i].None?
            ensures !forall k :: 0 <= k < i ==> entries[k].Some? && LowerCase(entries[k].value) != needle
          {
            if forall k :: 0 <= k < i ==> entries[k].Some? && LowerCase(entries[k].value) != needle {
              assert i > 0 && tail[i - 1].None?;
              assert forall k :: 0 <= k < i - 1 ==> tail[k].Some? && LowerCase(tail[k].value) != needle by {
                forall k | 0 <= k < i - 1 ensures tail[k] == entries[k + 1] {}
              }
            }
          }
        }
      }
    }
  }

  /** The collection throws exactly when the filter throws on one of its posts. */
  lemma {:induction false} SelectByTermThrows(posts: seq<Post>, needle: Option<string>, field: Taxonomy)
    ensures SelectByTerm(posts, needle, field).Err? <==> exists p :: p in posts && MatchesTerm(p, needle, field).Err?
  {
    if posts != [] {
      SelectByTermThrows(posts[1..], needle, field);
      assert forall p :: p in posts <==> p == posts[0] || p in posts[1..];
    }
  }

  /** Without an error the collection keeps exactly the posts the filter accepts, with their multiplicities. */
  lemma {:induction false} SelectByTermSelects(posts: seq<Post>, needle: Option<string>, field: Taxonomy)
    requires SelectByTerm(posts, needle, field).Ok?
    ensures forall p ::
      multiset(SelectByTerm(posts, needle, field).value)[p] == if MatchesTerm(p, needle, field) == Ok(true) then multiset(posts)[p] else 0
  {
    if posts != [] {
      SelectByTermSelects(posts[1..], needle, field);
      assert posts == [posts[0]] + posts[1..];
    }
  }

  /** With no term to look for, the filter is the one of `getSortedPosts` without flags. */
  lemma {:induction false} SelectWithoutNeedle(posts: seq<Post>, field: Taxonomy)
    ensures SelectByTerm(posts, None, field) == Ok(Listed(posts, false, false))
  {
    if posts != [] {
      SelectWithoutNeedle(posts[1..], field);
    }
  }

  /** An absent or empty tag or author gives what `getSortedPosts({limit})` gives. */
  lemma PostsByTermWithoutTerm(collection: seq<Post>, param: Option<string>, limit: Option<int>, field: Taxonomy)
    requires param == None || param == Some("")
    ensures PostsByTerm(collection, param, limit, field) == Ok(SortedPosts(collection, limit, false, false))
  {
    SelectWithoutNeedle(collection, field);
  }

  /** Parameters that lower-case alike select alike. */
  lemma PostsByTermIgnoresCase(collection: seq<Post>, t1: string, t2: string, limit: Option<int>, field: Taxonomy)
    requires LowerCase(t1) == LowerCase(t2)
    ensures PostsByTerm(collection, Some(t1), limit, field) == PostsByTerm(collection, Some(t2), limit, field)
  {
  }

  /** Entry `i` is present and equals `needle` once lower-cased. */
  predicate EntryMatches(entries: seq<Option<string>>, i: int, needle: string) {
    0 <= i < |entries| && entries[i].Some? && LowerCase(entries[i].value) == needle
  }

  /**
   * A successful query by term returns posts of the collection the filter
   * accepts, newest first, and counts every post the filter accepts.
   */
  lemma PostsByTermContract(collection: seq<Post>, param: Option<string>, limit: Option<int>, field: Taxonomy)
    requires PostsByTerm(collection, param, limit, field).Ok?
    ensures var q := PostsByTerm(collection, param, limit, field).value;
      && (forall p :: p in q.posts ==> p in collection && MatchesTerm(p, Needle(param), field) == Ok(true))
      && Sorted(q.posts, NewerOrSame)
      && q.total_posts == |SelectByTerm(collection, Needle(param), field).value|
      && |q.posts| <= q.total_posts
      && (limit == None || limit == Some(0) ==> |q.posts| == q.total_posts)
  {
    var selected := SelectByTerm(collection, Needle(param), field).value;
    var q := Page(selected, limit);
    PageOrdered(selected, limit);
    PageCounts(selected, limit);
    PageSelects(selected, limit);
    SelectByTermSelects(collection, Needle(param), field);
    forall p | p in q.posts
      ensures p in collection && MatchesTerm(p, Needle(param), field) == Ok(true)
    {
      assert multiset(selected)[p] > 0;
    }
  }

  /**
   * The filter accepts a post only when it is not a draft and, for a
   * non-empty term, one of its entries equals the term case-insensitively
   * with no null entry before it.
   */
  lemma MatchesTermAccepts(p: Post, param: Option<string>, field: Taxonomy)
    requires MatchesTerm(p, Needle(param), field) == Ok(true)
    ensures !p.draft
    ensures param.Some? && param.value != "" ==>
      && Entries(p, field).Some?
      && exists i :: EntryMatches(Entries(p, field).value, i, LowerCase(param.value))
           && forall k :: 0 <= k < i ==> Entries(p, field).value[k].Some?
  {
    if param.Some? && param.value != "" {
      MatchFound(Entries(p, field).value, LowerCase(param.value));
    }
  }

  /** A `some` that answers true has seen a present entry equal to the needle. */
  lemma {:induction false} MatchFound(entries: seq<Option<string>>, needle: string)
    requires SomeEntryMatches(entries, needle) == Ok(true)
    ensures exists i :: EntryMatches(entries, i, needle) && forall k :: 0 <= k < i ==> entries[k].Some?
  {
    if LowerCase(entries[0].value) != needle {
      MatchFound(entries[1..], needle);
      var i :| EntryMatches(entries[1..], i, needle) && forall k :: 0 <= k < i ==> entries[1..][k].Some?;
      assert EntryMatches(entries, i + 1, needle);
      assert forall k :: 0 <= k < i + 1 ==> entries[k].Some? by {
        forall k | 1 <= k < i + 1 ensures entries[k] == entries[1..][k - 1] {}
      }
    } else {
      assert EntryMatches(entries, 0, needle);
    }
  }

  /** A present entry equal to the needle with no null entry before it makes `some` answer true. */
  lemma {:induction false} MatchNoNullBefore(entries: seq<Option<string>>, needle: string, m: nat)
    requires EntryMatches(entries, m, needle)
    requires forall k :: 0 <= k < m ==> entries[k].Some?
    ensures SomeEntryMatches(entries, needle) == Ok(true)
  {
    if m > 0 && LowerCase(entries[0].value) != needle {
      MatchNoNullBefore(entries[1..], needle, m - 1);
    }
  }

  /** A `some` that answers false has seen every entry present and none equal to the needle. */
  lemma {:induction false} NoMatchFound(entries: seq<Option<string>>, needle: string)
    requires SomeEntryMatches(entries, needle) == Ok(false)
    ensures forall i :: 0 <= i < |entries| ==> entries[i].Some? && LowerCase(entries[i].value) != needle
  {
    if entries != [] {
      NoMatchFound(entries[1..], needle);
      forall i | 1 <= i < |entries| ensures entries[i] == entries[1..][i - 1] {}
    }
  }

  /**
   * The filter keeps a non-draft post when, for a non-empty term, one of its
   * entries equals the term case-insensitively and no null entry comes
   * before that one.
   */
  lemma MatchesTermKeeps(p: Post, param: Option<string>, field: Taxonomy, m: nat)
    requires !p.draft && param.Some? && param.value != "" && Entries(p, field).Some?
    requires EntryMatches(Entries(p, field).value, m, LowerCase(param.value))
    requires forall k :: 0 <= k < m ==> Entries(p, field).value[k].Some?
    ensures MatchesTerm(p, Needle(param), field) == Ok(true)
  {
    MatchNoNullBefore(Entries(p, field).value, LowerCase(param.value), m);
  }

  /**
   * The filter drops a non-draft post only for a non-empty term and a post
   * whose entries are missing, or all present and none equal to the term
   * case-insensitively.
   */
  lemma MatchesTermRejects(p: Post, param: Option<string>, field: Taxonomy)
    requires MatchesTerm(p, Needle(param), field) == Ok(false)
    ensures !p.draft ==>
      && param.Some? && param.value != ""
      && (Entries(p, field).None? ||
          forall i :: 0 <= i < |Entries(p, field).value| ==>
            Entries(p, field).value[i].Some? && LowerCase(Entries(p, field).value[i].value) != LowerCase(param.value))
  {
    if !p.draft && Entries(p, field).Some? {
      NoMatchFound(Entries(p, field).value, LowerCase(param.value));
    }
  }
}
