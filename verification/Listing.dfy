/** Page-by-page listing of a bucket (storage/client.go). A channel is the sequence of what is
    still to be received from it; the bucket is listed in byte order of its keys, starting after
    a given key, as S3 does. */
module Listing {
  import opened Common
  import V = Versions

  /** listPageSize. */
  const PAGE_SIZE := 1000

  datatype Object = Object(key: string, size: int, etag: string, contentType: string)

  /** What the listing channel delivers: an object, or an error. */
  type Info = Result<Object, string>

  datatype ListResult = ListResult(objects: seq<Object>, nextPageToken: string)

  datatype ListError = ContextError(message: string) | ListingError(message: string)

  class Channel {
    /** What will be sent until the channel is closed. */
    var pending: seq<Info>

    constructor (pending: seq<Info>)
      ensures this.pending == pending
    {
      this.pending := pending;
    }

    /** A receive: None once the channel is closed and empty. */
    method Receive() returns (info: Option<Info>)
      modifies this
      ensures old(pending) == [] ==> info == None && pending == []
      ensures old(pending) != [] ==> info == Some(old(pending)[0]) && pending == old(pending)[1..]
    {
      if pending == [] {
        return None;
      }
      info := Some(pending[0]);
      pending := pending[1..];
    }
  }

  class CancelFunc {
    var calls: nat

    constructor ()
      ensures calls == 0
    {
      calls := 0;
    }

    method Call()
      modifies this
      ensures calls == old(calls) + 1
    {
      calls := calls + 1;
    }
  }

  // ----- One page -----

  /** The number of objects before the first error. */
  function Good(infos: seq<Info>): (n: nat)
    ensures n <= |infos|
    ensures forall i :: 0 <= i < n ==> infos[i].Ok?
    ensures n < |infos| ==> infos[n].Err?
  {
    if infos == [] || infos[0].Err? then 0 else 1 + Good(infos[1..])
  }

  function Values(infos: seq<Info>): (objects: seq<Object>)
    requires forall i :: 0 <= i < |infos| ==> infos[i].Ok?
    ensures |objects| == |infos|
  {
    seq(|infos|, i requires 0 <= i < |infos| => infos[i].value)
  }

  predicate PageIsFull(infos: seq<Info>) {
    Good(infos) >= PAGE_SIZE
  }

  /** The page is what precedes the first error, up to 1000 objects; it is continued after its
      1000th object. */
  function Page(infos: seq<Info>): (r: ListResult) {
    if PageIsFull(infos)
    then ListResult(Values(infos[..PAGE_SIZE]), infos[PAGE_SIZE - 1].value.key)
    else ListResult(Values(infos[..Good(infos)]), "")
  }

  /** An error counts when it precedes the 1000th object. */
  function PageError(infos: seq<Info>): (e: Option<string>) {
    if !PageIsFull(infos) && Good(infos) < |infos| then Some(infos[Good(infos)].error) else None
  }

  lemma {:induction false} GoodPrefix(infos: seq<Info>, n: nat)
    requires n <= |infos| && forall i :: 0 <= i < n ==> infos[i].Ok?
    ensures Good(infos) >= n
  {
    if n > 0 {
      GoodPrefix(infos[1..], n - 1);
    }
  }

  /** The listing fails at `i`: before the 1000th object, with only objects before it. */
  ghost predicate FailsAt(infos: seq<Info>, i: nat) {
    i < |infos| && i < 1000 && infos[i].Err? && forall j :: 0 <= j < i ==> infos[j].Ok?
  }

  /** The objects delivered first, up to 1000 and up to an error, and the key of the 1000th to go on
      from. */
  ghost predicate IsPage(infos: seq<Info>, p: ListResult) {
    && |p.objects| <= |infos| && |p.objects| <= 1000
    && (forall i :: 0 <= i < |p.objects| ==> infos[i] == Ok(p.objects[i]))
    && (|p.objects| < 1000 && |p.objects| < |infos| ==> infos[|p.objects|].Err?)
    && p.nextPageToken == if |p.objects| < 1000 then "" else p.objects[999].key
  }

  lemma PageIsExact(infos: seq<Info>)
    ensures IsPage(infos, Page(infos))
    ensures PageError(infos).Some? <==> exists i: nat :: FailsAt(infos, i)
    ensures forall i: nat :: FailsAt(infos, i) ==> PageError(infos) == Some(infos[i].error)
  {
    var n := Good(infos);
    forall i: nat | FailsAt(infos, i) ensures i == n {
      GoodPrefix(infos, i);
    }
    if PageError(infos).Some? {
      assert FailsAt(infos, n);
    }
  }

  /** collectListPage: the whole channel is drained, and the listing is cancelled once, as soon
      as the rest of it does not matter. */
  method CollectListPage(objects: Channel, cancel: CancelFunc) returns (result: ListResult, firstErr: Option<string>)
    modifies objects, cancel
    ensures objects.pending == []
    ensures result == Page(old(objects.pending))
    ensures firstErr == PageError(old(objects.pending))
    ensures cancel.calls == old(cancel.calls) + (if firstErr.Some? || PageIsFull(old(objects.pending)) then 1 else 0)
  {
    ghost var all := objects.pending;
    ghost var n := 0;
    result := ListResult([], "");
    firstErr := None;
    var stopped := false;
    var info := objects.Receive();
    while info.Some?
      invariant n <= |all| && objects.pending == (if n < |all| then all[n + 1..] else [])
      invariant info == if n < |all| then Some(all[n]) else None
      invariant !stopped ==> |result.objects| == n < PAGE_SIZE && (forall i :: 0 <= i < n ==> all[i].Ok?)
      invariant !stopped ==> result == ListResult(Values(all[..n]), "") && firstErr == None
      invariant stopped ==> result == Page(all) && firstErr == PageError(all)
      invariant stopped ==> firstErr.Some? || PageIsFull(all)
      invariant cancel.calls == old(cancel.calls) + if stopped then 1 else 0
      decreases |all| - n
    {
      if !stopped {
        GoodPrefix(all, n);
        if info.value.Err? {
          firstErr := Some(info.value.error);
          stopped := true;
          cancel.Call();
        } else {
          GoodPrefix(all, n + 1);
          assert Values(all[..n + 1]) == Values(all[..n]) + [all[n].value];
          result := result.(objects := result.objects + [info.value.value]);
          if |result.objects| == PAGE_SIZE {
            result := result.(nextPageToken := info.value.value.key);
            stopped := true;
            cancel.Call();
          }
        }
      }
      n := n + 1;
      info := objects.Receive();
    }
    if !stopped {
      assert all[..n] == all;
      GoodPrefix(all, n);
    }
  }

  /** List, after the listing was started: an error leaves no partial page. */
  method List(objects: Channel, ctxErr: Option<string>) returns (r: Result<ListResult, ListError>)
    modifies objects
    ensures objects.pending == []
    ensures r.Ok? <==> PageError(old(objects.pending)) == None
    ensures r.Ok? ==> r.value == Page(old(objects.pending))
    ensures r.Err? ==> r.error == match ctxErr
                                  case Some(m) => ContextError(m)
                                  case None => ListingError(PageError(old(objects.pending)).value)
    ensures r.Ok? <==> !exists i: nat :: FailsAt(old(objects.pending), i)
    ensures r.Ok? ==> IsPage(old(objects.pending), r.value)
    ensures ctxErr.None? ==> forall i: nat :: FailsAt(old(objects.pending), i) ==>
      r == Err(ListingError(old(objects.pending)[i].error))
  {
    var cancel := new CancelFunc();
    PageIsExact(objects.pending);
    var result, firstErr := CollectListPage(objects, cancel);
    if firstErr.Some? {
      if ctxErr.Some? {
        return Err(ContextError(ctxErr.value));
      }
      return Err(ListingError(firstErr.value));
    }
    return Ok(result);
  }

  /** What follows the 1000th object or the first error does not matter: cancelling early cannot
      change the page. */
  lemma {:induction false} RestDoesNotMatter(infos: seq<Info>, rest: seq<Info>)
    requires PageIsFull(infos) || PageError(infos).Some?
    ensures Page(infos + rest) == Page(infos) && PageError(infos + rest) == PageError(infos)
  {
    GoodConcat(infos, rest);
    var n := if PageIsFull(infos) then PAGE_SIZE else Good(infos);
    assert (infos + rest)[..n] == infos[..n];
  }

  lemma {:induction false} GoodConcat(infos: seq<Info>, rest: seq<Info>)
    ensures Good(infos + rest) >= Good(infos)
    ensures Good(infos) < |infos| ==> Good(infos + rest) == Good(infos)
  {
    if infos != [] && infos[0].Ok? {
      GoodConcat(infos[1..], rest);
      assert (infos + rest)[1..] == infos[1..] + rest;
    }
  }

  // ----- The bucket -----

  ghost predicate Sorted(bucket: seq<Object>) {
    (forall i :: 0 <= i < |bucket| ==> bucket[i].key != "") &&
    (forall i, j :: 0 <= i < j < |bucket| ==> V.Less(bucket[i].key, bucket[j].key))
  }

  predicate Matches(o: Object, prefix: string, after: string) {
    prefix <= o.key && V.Less(after, o.key)
  }

  /** ListObjects with a prefix and an exclusive start key. */
  function Matching(bucket: seq<Object>, prefix: string, after: string): (r: seq<Object>)
    ensures |r| <= |bucket|
  {
    if bucket == [] then []
    else (if Matches(bucket[0], prefix, after) then [bucket[0]] else []) + Matching(bucket[1..], prefix, after)
  }

  function Infos(objects: seq<Object>): (r: seq<Info>)
    ensures |r| == |objects|
  {
    seq(|objects|, i requires 0 <= i < |objects| => Ok(objects[i]))
  }

  function ListPage(bucket: seq<Object>, prefix: string, token: string): (p: ListResult) {
    Page(Infos(Matching(bucket, prefix, token)))
  }

  lemma PageOf(bucket: seq<Object>, prefix: string, token: string)
    ensures var m, p := Matching(bucket, prefix, token), ListPage(bucket, prefix, token);
            if |m| >= PAGE_SIZE then p == ListResult(m[..PAGE_SIZE], m[PAGE_SIZE - 1].key)
            else p == ListResult(m, "")
  {
    var m := Matching(bucket, prefix, token);
    GoodPrefix(Infos(m), |m|);
    var n := if |m| >= PAGE_SIZE then PAGE_SIZE else |m|;
    assert Values(Infos(m)[..n]) == m[..n];
    assert m[..|m|] == m;
  }

  /** What matches is what is in the bucket, in order. */
  lemma {:induction false} MatchingIsExact(bucket: seq<Object>, prefix: string, after: string)
    requires Sorted(bucket)
    ensures forall o :: o in Matching(bucket, prefix, after) <==> o in bucket && prefix <= o.key && V.Less(after, o.key)
    ensures Sorted(Matching(bucket, prefix, after))
  {
    if bucket != [] {
      var rest := Matching(bucket[1..], prefix, after);
      MatchingIsExact(bucket[1..], prefix, after);
      forall o | o in rest ensures V.Less(bucket[0].key, o.key) {
        var j :| 0 <= j < |bucket[1..]| && bucket[1..][j] == o;
        assert bucket[j + 1] == o;
      }
    }
  }

  lemma {:induction false} AllLater(bucket: seq<Object>, prefix: string, a: string, b: string)
    requires V.Less(a, b)
    requires forall i :: 0 <= i < |bucket| ==> V.Less(b, bucket[i].key)
    ensures Matching(bucket, prefix, b) == Matching(bucket, prefix, a)
  {
    if bucket != [] {
      V.LessTransitive(a, b, bucket[0].key);
      AllLater(bucket[1..], prefix, a, b);
    }
  }

  lemma SortedTail(bucket: seq<Object>)
    requires Sorted(bucket) && bucket != []
    ensures Sorted(bucket[1..])
    ensures forall o :: o in bucket[1..] ==> V.Less(bucket[0].key, o.key)
  {
    forall o | o in bucket[1..] ensures V.Less(bucket[0].key, o.key) {
      var j :| 0 <= j < |bucket[1..]| && bucket[1..][j] == o;
      assert bucket[j + 1] == o;
    }
  }

  lemma MatchesComeLater(bucket: seq<Object>, prefix: string, after: string, i: nat)
    requires Sorted(bucket) && bucket != [] && i < |Matching(bucket[1..], prefix, after)|
    ensures V.Less(bucket[0].key, Matching(bucket[1..], prefix, after)[i].key)
  {
    SortedTail(bucket);
    MatchingIsExact(bucket[1..], prefix, after);
    assert Matching(bucket[1..], prefix, after)[i] in Matching(bucket[1..], prefix, after);
  }

  /** A first object no later than `t` does not match after `t`. */
  lemma FirstIsPast(bucket: seq<Object>, prefix: string, t: string)
    requires bucket != [] && (bucket[0].key == t || V.Less(bucket[0].key, t))
    ensures Matching(bucket, prefix, t) == Matching(bucket[1..], prefix, t)
  {
    V.LessAsymmetric(bucket[0].key, t);
  }

  lemma ContinueFirst(bucket: seq<Object>, prefix: string, after: string)
    requires Sorted(bucket) && bucket != [] && Matches(bucket[0], prefix, after)
    ensures Matching(bucket, prefix, bucket[0].key) == Matching(bucket[1..], prefix, after)
  {
    SortedTail(bucket);
    AllLater(bucket[1..], prefix, after, bucket[0].key);
    FirstIsPast(bucket, prefix, bucket[0].key);
  }

  lemma ContinueLater(bucket: seq<Object>, prefix: string, after: string, i: nat)
    requires Sorted(bucket) && bucket != [] && i < |Matching(bucket[1..], prefix, after)|
    requires var tail := Matching(bucket[1..], prefix, after);
             Matching(bucket[1..], prefix, tail[i].key) == tail[i + 1..]
    ensures var tail := Matching(bucket[1..], prefix, after);
            Matching(bucket, prefix, tail[i].key) == tail[i + 1..]
  {
    MatchesComeLater(bucket, prefix, after, i);
    FirstIsPast(bucket, prefix, Matching(bucket[1..], prefix, after)[i].key);
  }

  /** The same match, counted with or without the first object. */
  lemma ContinueFrom(bucket: seq<Object>, prefix: string, m: seq<Object>, front: seq<Object>, tail: seq<Object>, i: nat)
    requires m == front + tail && i < |tail|
    requires Matching(bucket, prefix, tail[i].key) == tail[i + 1..]
    ensures Matching(bucket, prefix, m[|front| + i].key) == m[|front| + i + 1..]
  {
    assert m[|front| + i + 1..] == tail[i + 1..];
  }

  lemma ContinueAtFirst(bucket: seq<Object>, prefix: string, after: string, m: seq<Object>)
    requires Sorted(bucket) && bucket != [] && Matches(bucket[0], prefix, after) && m == Matching(bucket, prefix, after)
    ensures m != [] && Matching(bucket, prefix, m[0].key) == m[1..]
  {
    ContinueFirst(bucket, prefix, after);
    assert m == [bucket[0]] + Matching(bucket[1..], prefix, after);
  }

  /** Starting after the k-th match leaves the matches behind it. */
  lemma {:induction false} Continue(bucket: seq<Object>, prefix: string, after: string, m: seq<Object>, k: nat)
    requires Sorted(bucket) && m == Matching(bucket, prefix, after) && k < |m|
    ensures Matching(bucket, prefix, m[k].key) == m[k + 1..]
  {
    var tail := Matching(bucket[1..], prefix, after);
    var front := if Matches(bucket[0], prefix, after) then [bucket[0]] else [];
    if k < |front| {
      ContinueAtFirst(bucket, prefix, after, m);
    } else {
      assert m == front + tail;
      var i := k - |front|;
      SortedTail(bucket);
      Continue(bucket[1..], prefix, after, tail, i);
      ContinueLater(bucket, prefix, after, i);
      ContinueFrom(bucket, prefix, m, front, tail, i);
    }
  }

  // ----- All pages -----

  /** Following NextPageToken until it is empty. */
  ghost function AllPages(bucket: seq<Object>, prefix: string, token: string): (pages: seq<ListResult>)
    requires Sorted(bucket)
    decreases |Matching(bucket, prefix, token)|
  {
    var page := ListPage(bucket, prefix, token);
    PageOf(bucket, prefix, token);
    if page.nextPageToken == "" then [page] else
    Continue(bucket, prefix, token, Matching(bucket, prefix, token), PAGE_SIZE - 1);
    [page] + AllPages(bucket, prefix, page.nextPageToken)
  }

  function Objects(pages: seq<ListResult>): seq<Object> {
    if pages == [] then [] else pages[0].objects + Objects(pages[1..])
  }

  /** `pages` list `m`, all but the last a full page. */
  ghost predicate Lists(pages: seq<ListResult>, m: seq<Object>) {
    && Objects(pages) == m && |pages| == |m| / 1000 + 1
    && (forall i :: 0 <= i < |pages| - 1 ==> |pages[i].objects| == 1000)
    && |Last(pages).objects| == |m| % 1000
  }

  lemma OneMorePage(first: ListResult, rest: seq<ListResult>, m: seq<Object>)
    requires |m| >= 1000 && first.objects == m[..1000] && Lists(rest, m[1000..])
    ensures Lists([first] + rest, m)
  {
    var pages := [first] + rest;
    assert pages[1..] == rest && m == m[..1000] + m[1000..];
    assert Last(pages) == Last(rest);
    forall i | 0 <= i < |pages| - 1 ensures |pages[i].objects| == 1000 {
      assert i > 0 ==> pages[i] == rest[i - 1];
    }
  }

  lemma {:induction false} PagesListMatches(bucket: seq<Object>, prefix: string, token: string)
    requires Sorted(bucket)
    ensures Lists(AllPages(bucket, prefix, token), Matching(bucket, prefix, token))
    decreases |Matching(bucket, prefix, token)|
  {
    var m, pages := Matching(bucket, prefix, token), AllPages(bucket, prefix, token);
    MatchingIsExact(bucket, prefix, token);
    PageOf(bucket, prefix, token);
    if |m| < PAGE_SIZE {
      assert pages == [ListResult(m, "")];
      assert Objects(pages) == m + Objects([]);
    } else {
      var t := m[PAGE_SIZE - 1].key;
      Continue(bucket, prefix, token, m, PAGE_SIZE - 1);
      PagesListMatches(bucket, prefix, t);
      OneMorePage(ListResult(m[..PAGE_SIZE], t), AllPages(bucket, prefix, t), m);
    }
  }

  /** Every matching object is listed once, in order, in n / 1000 + 1 pages, the last of which
      alone is not full (it may be empty). */
  lemma PagesListEverythingOnce(bucket: seq<Object>, prefix: string, token: string)
    requires Sorted(bucket)
    ensures var m, pages := Matching(bucket, prefix, token), AllPages(bucket, prefix, token);
            && Objects(pages) == m
            && (forall o :: o in Objects(pages) <==> o in bucket && prefix <= o.key && V.Less(token, o.key))
            && Sorted(Objects(pages))
            && |pages| == |m| / 1000 + 1
            && (forall i :: 0 <= i < |pages| - 1 ==> |pages[i].objects| == 1000)
            && |Last(pages).objects| == |m| % 1000
  {
    PagesListMatches(bucket, prefix, token);
    MatchingIsExact(bucket, prefix, token);
  }

  // ----- A bucket that changes between pages -----

  /** `tokens[i]` is what page i is asked with, from the bucket as it is then. */
  ghost predicate Following(buckets: seq<seq<Object>>, prefix: string, pages: seq<ListResult>, token: string)
    requires |buckets| == |pages|
  {
    pages != [] ==>
      && Sorted(buckets[0])
      && pages[0] == ListPage(buckets[0], prefix, token)
      && (|pages| > 1 ==> pages[0].nextPageToken != "")
      && Following(buckets[1..], prefix, pages[1..], pages[0].nextPageToken)
  }

  /** The objects of one page lie after its token and not after the next one. */
  lemma PageIsBetween(bucket: seq<Object>, prefix: string, token: string)
    requires Sorted(bucket)
    ensures var p := ListPage(bucket, prefix, token);
            && Sorted(p.objects)
            && (forall o :: o in p.objects ==> V.Less(token, o.key))
            && (p.nextPageToken != "" ==> V.Less(token, p.nextPageToken))
            && (p.nextPageToken != "" ==>
                 forall o :: o in p.objects ==> V.Less(o.key, p.nextPageToken) || o.key == p.nextPageToken)
  {
    var m, p := Matching(bucket, prefix, token), ListPage(bucket, prefix, token);
    MatchingIsExact(bucket, prefix, token);
    PageOf(bucket, prefix, token);
    forall o | o in p.objects
      ensures V.Less(token, o.key)
      ensures p.nextPageToken != "" ==> V.Less(o.key, p.nextPageToken) || o.key == p.nextPageToken
    {
      var i :| 0 <= i < |p.objects| && p.objects[i] == o;
      assert m[i] == o && m[i] in m;
    }
    if p.nextPageToken != "" {
      assert m[PAGE_SIZE - 1] in m;
    }
  }

  lemma SortedConcat(a: seq<Object>, b: seq<Object>)
    requires Sorted(a) && Sorted(b)
    requires forall x, y :: x in a && y in b ==> V.Less(x.key, y.key)
    ensures Sorted(a + b)
  {
    forall i, j | 0 <= i < j < |a + b| ensures V.Less((a + b)[i].key, (a + b)[j].key) {
      if i < |a| <= j {
        assert a[i] in a && b[j - |a|] in b;
      }
    }
  }

  /** Whatever is written or removed meanwhile, no key is listed twice and keys stay in order. */
  lemma {:induction false} NoKeyTwice(buckets: seq<seq<Object>>, prefix: string, pages: seq<ListResult>, token: string)
    requires |buckets| == |pages| && Following(buckets, prefix, pages, token)
    ensures Sorted(Objects(pages))
    ensures forall o :: o in Objects(pages) ==> V.Less(token, o.key)
  {
    if pages != [] {
      var page, t, rest := pages[0].objects, pages[0].nextPageToken, Objects(pages[1..]);
      PageIsBetween(buckets[0], prefix, token);
      NoKeyTwice(buckets[1..], prefix, pages[1..], t);
      if |pages| > 1 {
        forall x, y | x in page && y in rest ensures V.Less(x.key, y.key) {
          if V.Less(x.key, t) {
            V.LessTransitive(x.key, t, y.key);
          }
        }
        forall y | y in rest ensures V.Less(token, y.key) {
          V.LessTransitive(token, t, y.key);
        }
      }
      SortedConcat(page, rest);
    }
  }

  /** And an object that stays in the bucket throughout is listed. */
  lemma {:induction false} StableObjectIsListed(buckets: seq<seq<Object>>, prefix: string, pages: seq<ListResult>,
        token: string, o: Object)
    requires |buckets| == |pages| && Following(buckets, prefix, pages, token)
    requires pages != [] && Last(pages).nextPageToken == ""
    requires prefix <= o.key && V.Less(token, o.key) && forall i :: 0 <= i < |buckets| ==> o in buckets[i]
    ensures o in Objects(pages)
  {
    var m := Matching(buckets[0], prefix, token);
    MatchingIsExact(buckets[0], prefix, token);
    PageOf(buckets[0], prefix, token);
    assert o in buckets[0];
    var k :| 0 <= k < |m| && m[k] == o;
    if k < |pages[0].objects| {
      assert pages[0].objects[k] == o;
    } else {
      assert V.Less(m[PAGE_SIZE - 1].key, m[k].key);
      assert m[PAGE_SIZE - 1] in m && pages[0].nextPageToken != "";
      assert forall i :: 0 <= i < |buckets[1..]| ==> buckets[1..][i] == buckets[i + 1];
      StableObjectIsListed(buckets[1..], prefix, pages[1..], pages[0].nextPageToken, o);
    }
  }

  // ----- Reading one object -----

  /** What Read does with the size an object announces and the bytes it delivers. */
  function Read(announced: int, body: string, maxSize: nat): (content: Option<string>)
    requires maxSize <= V.MAX
  {
    if announced > maxSize then None else
    var limit := if maxSize < V.MAX then maxSize + 1 else maxSize;
    var content := if |body| <= limit then body else body[..limit];
    if |content| > maxSize then None else Some(content)
  }

  /** An object is read whole or not at all, and is refused exactly when it announces or delivers
      more than the limit. */
  lemma ReadIsWholeIff(announced: int, body: string, maxSize: nat)
    requires maxSize <= V.MAX && |body| <= V.MAX
    ensures Read(announced, body, maxSize) == if announced <= maxSize && |body| <= maxSize then Some(body) else None
  {
  }
}
