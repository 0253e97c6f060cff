/** Listing the files of a bucket page by page (listFilesLoop in packages/storage/src/storage.ts). */
module FileListing {
  import opened Results

  /** A page's entries may be null; `next` is None when there is no further page id. */
  datatype Response =
    | Failed
    | NoEntries
    | Page(entries: seq<Option<string>>, next: Option<string>)

  /** The hub's answer to request number n for a page. */
  type HubFunction = (nat, Option<string>) -> Response

  /** The callback's answer to a name, which may depend on the names it has seen before. */
  type Callback = (seq<string>, string) -> bool

  datatype ListError = TooManyEntries | RequestFailed | BadResponse

  /** Where a callback stopped the listing: within which page, at which index. */
  datatype Stop = Stop(entries: seq<Option<string>>, index: nat)

  datatype Listing = Listing(result: Result<nat, ListError>, visited: seq<string>, stop: Option<Stop>, requests: nat)

  const CALL_LIMIT := 65536

  function Names(entries: seq<Option<string>>): seq<string> {
    if entries == [] then []
    else (if entries[0].Some? then [entries[0].value] else []) + Names(entries[1..])
  }

  function Nulls(entries: seq<Option<string>>): nat {
    if entries == [] then 0 else (if entries[0].None? then 1 else 0) + Nulls(entries[1..])
  }

  /** The index of the first entry that the callback turns down; |entries| if there is none. */
  function StopIndex(callback: Callback, seen: seq<string>, entries: seq<Option<string>>): (stop: nat)
    ensures stop <= |entries|
    ensures stop < |entries| ==> entries[stop].Some?
    decreases |entries|
  {
    if entries == [] then 0
    else if entries[0].None? then 1 + StopIndex(callback, seen, entries[1..])
    else if !callback(seen, entries[0].value) then 0
    else 1 + StopIndex(callback, seen + [entries[0].value], entries[1..])
  }

  /** The listing from request number callCount on, with fileCount files counted and `seen` shown to the callback. */
  function List(hub: HubFunction, callback: Callback, reconnects: bool, page: Option<string>,
                callCount: nat, fileCount: nat, seen: seq<string>): Listing
    decreases CALL_LIMIT + 1 - callCount
  {
    if callCount > CALL_LIMIT then Listing(Err(TooManyEntries), seen, None, 0)
    else
      match hub(callCount, page)
      case Failed =>
        if callCount == 0 && reconnects then
          var rest := List(hub, callback, reconnects, page, 1, 0, seen);
          rest.(requests := rest.requests + 1)
        else Listing(Err(RequestFailed), seen, None, 1)
      case NoEntries => Listing(Err(BadResponse), seen, None, 1)
      case Page(entries, next) =>
        var stop := StopIndex(callback, seen, entries);
        if stop < |entries| then
          Listing(Ok(fileCount + stop), seen + Names(entries[..stop + 1]), Some(Stop(entries, stop)), 1)
        else if next.Some? && |entries| > 0 then
          var names := Names(entries);
          var rest := List(hub, callback, reconnects, next, callCount + 1, fileCount + |names|, seen + names);
          rest.(requests := rest.requests + 1)
        else Listing(Ok(fileCount + |Names(entries)|), seen + Names(entries), None, 1)
  }

  /** The callback agrees to each of the names, shown to it in order after those already seen. */
  predicate AcceptsAll(callback: Callback, seen: seq<string>, names: seq<string>) {
    forall j :: 0 <= j < |names| ==> callback(seen + names[..j], names[j])
  }

  /** The names before entry k are accepted, and entry k, if there is one, is a name that is turned down. */
  predicate StopsAt(callback: Callback, seen: seq<string>, entries: seq<Option<string>>, k: nat) {
    && k <= |entries|
    && AcceptsAll(callback, seen, Names(entries[..k]))
    && (k < |entries| ==> entries[k].Some? && !callback(seen + Names(entries[..k]), entries[k].value))
  }

  /** The loop over one page's entries. */
  method VisitEntries(callback: Callback, seen: seq<string>, entries: seq<Option<string>>)
    returns (stop: nat, entriesLength: nat, visited: seq<string>)
    ensures StopsAt(callback, seen, entries, stop)
    ensures stop == |entries| ==> entriesLength == |Names(entries)| && visited == seen + Names(entries)
    ensures stop < |entries| ==> visited == seen + Names(entries[..stop + 1])
  {
    hide Names;
    entriesLength, visited := 0, seen;
    NamesOfPrefix(entries, 0);
    for i := 0 to |entries|
      invariant visited == seen + Names(entries[..i]) && entriesLength == |Names(entries[..i])|
      invariant AcceptsAll(callback, seen, Names(entries[..i]))
    {
      NamesOfPrefix(entries, i);
      if entries[i].Some? {
        entriesLength := entriesLength + 1;
        var rc := callback(visited, entries[i].value);
        visited := visited + [entries[i].value];
        if !rc {
          return i, entriesLength, visited;
        }
        AcceptsOneMore(callback, seen, Names(entries[..i]), entries[i].value);
      }
    }
    assert entries[..|entries|] == entries;
    stop := |entries|;
  }

  lemma NamesOfPrefix(entries: seq<Option<string>>, i: nat)
    ensures Names([]) == []
    ensures i < |entries| ==>
              Names(entries[..i + 1]) ==
              if entries[i].Some? then Names(entries[..i]) + [entries[i].value] else Names(entries[..i])
  {
    if i < |entries| {
      assert entries[..i + 1] == entries[..i] + [entries[i]];
      NamesAppend(entries[..i], [entries[i]]);
    }
  }

  lemma AcceptsOneMore(callback: Callback, seen: seq<string>, names: seq<string>, name: string)
    requires AcceptsAll(callback, seen, names) && callback(seen + names, name)
    ensures AcceptsAll(callback, seen, names + [name])
  {
    var all := names + [name];
    assert forall j :: 0 <= j <= |names| ==> all[..j] == names[..j];
    assert names[..|names|] == names;
  }

  lemma AcceptsFirst(callback: Callback, seen: seq<string>, name: string, names: seq<string>)
    ensures AcceptsAll(callback, seen, [name] + names) <==>
            callback(seen, name) && AcceptsAll(callback, seen + [name], names)
  {
    var all := [name] + names;
    assert seen + all[..0] == seen;
    assert forall j :: 0 <= j < |names| ==> seen + all[..j + 1] == seen + [name] + names[..j];
    assert forall j :: 0 < j < |all| ==> all[j] == names[j - 1];
    if AcceptsAll(callback, seen, all) {
      assert callback(seen + all[..0], all[0]);
      forall j | 0 <= j < |names|
        ensures callback(seen + [name] + names[..j], names[j])
      {
        assert callback(seen + all[..j + 1], all[j + 1]);
      }
    } else if callback(seen, name) && AcceptsAll(callback, seen + [name], names) {
      forall j | 0 <= j < |all|
        ensures callback(seen + all[..j], all[j])
      {
        assert j > 0 ==> callback(seen + [name] + names[..j - 1], names[j - 1]);
      }
    }
  }

  /** The specification stops at the one place where the names before are accepted and the next is not. */
  lemma {:induction false} StopIsFirstRefusal(callback: Callback, seen: seq<string>, entries: seq<Option<string>>,
                                              k: nat)
    ensures StopIndex(callback, seen, entries) == k <==> StopsAt(callback, seen, entries, k)
    decreases |entries|
  {
    if entries != [] && 0 < k <= |entries| {
      var rest := entries[1..];
      assert entries[..k][1..] == rest[..k - 1];
      if entries[0].Some? {
        var name, names := entries[0].value, Names(rest[..k - 1]);
        AcceptsFirst(callback, seen, name, names);
        assert seen + ([name] + names) == seen + [name] + names;
        StopIsFirstRefusal(callback, seen + [name], rest, k - 1);
      } else {
        assert [] + Names(rest[..k - 1]) == Names(rest[..k - 1]);
        StopIsFirstRefusal(callback, seen, rest, k - 1);
      }
    } else if k == 0 {
      assert seen + [] == seen;
    }
  }

  /** The ghost result counts the calls of `hub` that the loop and its recursive calls make. */
  method ListFilesLoop(hub: HubFunction, callback: Callback, reconnects: bool, page: Option<string>,
                       callCount: nat, fileCount: nat, seen: seq<string>)
    returns (result: Result<nat, ListError>, visited: seq<string>, ghost requests: nat)
    ensures var l := List(hub, callback, reconnects, page, callCount, fileCount, seen);
            result == l.result && visited == l.visited
    ensures requests == List(hub, callback, reconnects, page, callCount, fileCount, seen).requests
    decreases CALL_LIMIT + 1 - callCount
  {
    hide StopIndex, StopsAt, Names;
    requests := 0;
    if callCount > CALL_LIMIT {
      return Err(TooManyEntries), seen, requests;
    }
    var response := hub(callCount, page);
    requests := requests + 1;
    ghost var more := 0;
    match response {
      case Failed =>
        if callCount == 0 && reconnects {
          result, visited, more := ListFilesLoop(hub, callback, reconnects, page, callCount + 1, 0, seen);
        } else {
          result, visited := Err(RequestFailed), seen;
        }
      case NoEntries =>
        result, visited := Err(BadResponse), seen;
      case Page(entries, next) =>
        var stop, entriesLength, shown := VisitEntries(callback, seen, entries);
        StopIsFirstRefusal(callback, seen, entries, stop);
        if stop < |entries| {
          return Ok(fileCount + stop), shown, requests;
        }
        if next.Some? && |entries| > 0 {
          result, visited, more :=
            ListFilesLoop(hub, callback, reconnects, next, callCount + 1, fileCount + entriesLength, shown);
        } else {
          result, visited := Ok(fileCount + entriesLength), shown;
        }
    }
    requests := requests + more;
  }

  lemma {:induction false} NamesAppend(a: seq<Option<string>>, b: seq<Option<string>>)
    ensures Names(a + b) == Names(a) + Names(b)
  {
    if a == [] {
      assert a + b == b;
    } else {
      assert (a + b)[1..] == a[1..] + b;
      NamesAppend(a[1..], b);
    }
  }

  lemma NameOfOne(entry: Option<string>)
    ensures |Names([entry])| == if entry.Some? then 1 else 0
  {
  }

  lemma {:induction false} NamesAndNulls(entries: seq<Option<string>>)
    ensures |Names(entries)| + Nulls(entries) == |entries|
  {
    if entries != [] {
      NamesAndNulls(entries[1..]);
    }
  }

  /** However many pages the hub serves, there are at most 65537 requests. */
  lemma {:induction false} RequestsAreBounded(hub: HubFunction, callback: Callback, reconnects: bool,
                                              page: Option<string>, callCount: nat, fileCount: nat,
                                              seen: seq<string>)
    requires callCount <= CALL_LIMIT + 1
    ensures List(hub, callback, reconnects, page, callCount, fileCount, seen).requests <= CALL_LIMIT + 1 - callCount
    decreases CALL_LIMIT + 1 - callCount
  {
    if callCount <= CALL_LIMIT {
      match hub(callCount, page)
      case Failed =>
        if callCount == 0 && reconnects {
          RequestsAreBounded(hub, callback, reconnects, page, 1, 0, seen);
        }
      case NoEntries =>
      case Page(entries, next) =>
        var names := Names(entries);
        RequestsAreBounded(hub, callback, reconnects, next, callCount + 1, fileCount + |names|, seen + names);
    }
  }

  /**
   What a successful listing returns: the number of names shown to the callback, unless the
   callback stopped it. Then the rejected name is left out, but null entries before it on the
   last page are counted as files.
   */
  lemma {:induction false} CountReturned(hub: HubFunction, callback: Callback, reconnects: bool, page: Option<string>,
                                         callCount: nat, seen: seq<string>)
    requires callCount == 0 ==> seen == []
    ensures var l := List(hub, callback, reconnects, page, callCount, |seen|, seen);
            l.result.Ok? ==>
              && (l.stop.None? ==> l.result.value == |l.visited|)
              && (l.stop.Some? ==>
                    && l.stop.value.index < |l.stop.value.entries|
                    && l.result.value == |l.visited| - 1 + Nulls(l.stop.value.entries[..l.stop.value.index]))
    decreases CALL_LIMIT + 1 - callCount
  {
    hide StopIndex, Names, Nulls;
    if callCount <= CALL_LIMIT {
      match hub(callCount, page)
      case Failed =>
        if callCount == 0 && reconnects {
          CountReturned(hub, callback, reconnects, page, 1, seen);
        }
      case NoEntries =>
      case Page(entries, next) =>
        var stop := StopIndex(callback, seen, entries);
        if stop < |entries| {
          var before := entries[..stop];
          assert entries[..stop + 1] == before + [entries[stop]];
          NamesAppend(before, [entries[stop]]);
          NameOfOne(entries[stop]);
          NamesAndNulls(before);
        } else if next.Some? && |entries| > 0 {
          assert |seen + Names(entries)| == |seen| + |Names(entries)|;
          CountReturned(hub, callback, reconnects, next, callCount + 1, seen + Names(entries));
        }
    }
  }

  // ----- how every run goes

  /** From request n for `page` on, the hub serves these pages, none empty, and request n + |pages| is for `last`. */
  ghost predicate LeadsTo(hub: HubFunction, page: Option<string>, n: nat, pages: seq<seq<Option<string>>>,
                          last: Option<string>)
    decreases |pages|
  {
    if pages == [] then page == last
    else
      && hub(n, page).Page?
      && hub(n, page).entries == pages[0] != []
      && hub(n, page).next.Some?
      && LeadsTo(hub, hub(n, page).next, n + 1, pages[1..], last)
  }

  /** How a listing ends that has made `made` requests and shown `shown`, and would make request m for `last`. */
  ghost predicate EndsWith(l: Listing, hub: HubFunction, callback: Callback, last: Option<string>, m: nat,
                           shown: seq<string>, made: nat)
  {
    if m > 65536 then l == Listing(Err(TooManyEntries), shown, None, made)
    else
      match hub(m, last)
      case Failed => l == Listing(Err(RequestFailed), shown, None, made + 1)
      case NoEntries => l == Listing(Err(BadResponse), shown, None, made + 1)
      case Page(entries, next) =>
        forall k: nat :: StopsAt(callback, shown, entries, k) ==>
          if k < |entries| then
            l == Listing(Ok(|shown| + k), shown + Names(entries[..k]) + [entries[k].value], Some(Stop(entries, k)),
                         made + 1)
          else next.None? || entries == [] ==>
            l == Listing(Ok(|shown| + |Names(entries)|), shown + Names(entries), None, made + 1)
  }

  /** Request m for `last` is the last one: it is not made, brings no page, or no other page is asked for after it. */
  ghost predicate IsLast(hub: HubFunction, callback: Callback, last: Option<string>, m: nat, shown: seq<string>) {
    || m > 65536
    || !hub(m, last).Page?
    || hub(m, last).next.None? || hub(m, last).entries == []
    || exists k: nat :: k < |hub(m, last).entries| && StopsAt(callback, shown, hub(m, last).entries, k)
  }

  lemma StopIsUnique(callback: Callback, seen: seq<string>, entries: seq<Option<string>>)
    ensures StopsAt(callback, seen, entries, StopIndex(callback, seen, entries))
    ensures forall k :: StopsAt(callback, seen, entries, k) ==> k == StopIndex(callback, seen, entries)
  {
    StopIsFirstRefusal(callback, seen, entries, StopIndex(callback, seen, entries));
    forall k | StopsAt(callback, seen, entries, k)
      ensures k == StopIndex(callback, seen, entries)
    {
      StopIsFirstRefusal(callback, seen, entries, k);
    }
  }

  lemma LastRequest(hub: HubFunction, callback: Callback, reconnects: bool, last: Option<string>, m: nat,
                    shown: seq<string>)
    requires m > 0 || !reconnects || !hub(0, last).Failed?
    ensures EndsWith(List(hub, callback, reconnects, last, m, |shown|, shown), hub, callback, last, m, shown, 0)
  {
    hide StopIndex, StopsAt, Names;
    if m <= 65536 && hub(m, last).Page? {
      var entries := hub(m, last).entries;
      StopIsUnique(callback, shown, entries);
      var stop := StopIndex(callback, shown, entries);
      NamesOfPrefix(entries, stop);
      if stop < |entries| {
        assert shown + (Names(entries[..stop]) + [entries[stop].value]) ==
               shown + Names(entries[..stop]) + [entries[stop].value];
      }
    }
  }

  lemma OnePageMore(hub: HubFunction, callback: Callback, reconnects: bool, page: Option<string>, n: nat,
                    seen: seq<string>, names: seq<string>)
    requires n <= 65536 && hub(n, page).Page? && hub(n, page).entries != [] && hub(n, page).next.Some?
    requires names == Names(hub(n, page).entries) && AcceptsAll(callback, seen, names)
    ensures var l := List(hub, callback, reconnects, page, n, |seen|, seen);
            var rest := List(hub, callback, reconnects, hub(n, page).next, n + 1, |seen + names|, seen + names);
            l == rest.(requests := rest.requests + 1)
  {
    hide StopIndex, Names;
    var entries := hub(n, page).entries;
    assert entries[..|entries|] == entries;
    assert StopsAt(callback, seen, entries, |entries|);
    StopIsFirstRefusal(callback, seen, entries, |entries|);
  }

  lemma AcceptsInTurn(callback: Callback, seen: seq<string>, a: seq<string>, b: seq<string>)
    requires AcceptsAll(callback, seen, a + b)
    ensures AcceptsAll(callback, seen, a) && AcceptsAll(callback, seen + a, b)
  {
    var all := a + b;
    forall j | 0 <= j < |a|
      ensures callback(seen + a[..j], a[j])
    {
      assert all[..j] == a[..j] && all[j] == a[j];
    }
    forall j | 0 <= j < |b|
      ensures callback(seen + a + b[..j], b[j])
    {
      assert all[|a| + j] == b[j];
      assert seen + all[..|a| + j] == seen + a + b[..j];
    }
  }

  lemma OneRequestMore(l: Listing, hub: HubFunction, callback: Callback, last: Option<string>, m: nat,
                       shown: seq<string>, made: nat)
    requires EndsWith(l, hub, callback, last, m, shown, made)
    ensures EndsWith(l.(requests := l.requests + 1), hub, callback, last, m, shown, made + 1)
  {
    hide StopsAt, Names;
  }

  /**
   A listing goes through some pages whose names the callback all accepts, and then makes one more
   request. What that request brings settles what is returned and what was shown.
   */
  lemma {:induction false} HowListingEnds(hub: HubFunction, callback: Callback, reconnects: bool, page: Option<string>,
                                          n: nat, seen: seq<string>, pages: seq<seq<Option<string>>>,
                                          last: Option<string>)
    requires LeadsTo(hub, page, n, pages, last) && n + |pages| <= 65537
    requires AcceptsAll(callback, seen, AllNames(pages))
    requires n > 0 || !reconnects || !hub(0, page).Failed?
    ensures EndsWith(List(hub, callback, reconnects, page, n, |seen|, seen), hub, callback, last, n + |pages|,
                     seen + AllNames(pages), |pages|)
    decreases |pages|
  {
    hide List, AcceptsAll, EndsWith, Names;
    if pages == [] {
      assert seen + [] == seen;
      LastRequest(hub, callback, reconnects, last, n, seen);
    } else {
      var names, rest := Names(pages[0]), pages[1..];
      AcceptsInTurn(callback, seen, names, AllNames(rest));
      OnePageMore(hub, callback, reconnects, page, n, seen, names);
      HowListingEnds(hub, callback, reconnects, hub(n, page).next, n + 1, seen + names, rest, last);
      assert seen + names + AllNames(rest) == seen + AllNames(pages);
      OneRequestMore(List(hub, callback, reconnects, hub(n, page).next, n + 1, |seen + names|, seen + names),
                     hub, callback, last, n + |pages|, seen + AllNames(pages), |rest|);
    }
  }

  lemma AcceptsTogether(callback: Callback, seen: seq<string>, a: seq<string>, b: seq<string>)
    requires AcceptsAll(callback, seen, a) && AcceptsAll(callback, seen + a, b)
    ensures AcceptsAll(callback, seen, a + b)
  {
    var all := a + b;
    forall j | 0 <= j < |all|
      ensures callback(seen + all[..j], all[j])
    {
      if j < |a| {
        assert all[..j] == a[..j] && all[j] == a[j];
      } else {
        assert seen + all[..j] == seen + a + b[..j - |a|];
      }
    }
  }

  /** Whatever the hub and the callback do, there are such pages and a last request. */
  lemma {:induction false} EveryListingEnds(hub: HubFunction, callback: Callback, page: Option<string>, n: nat,
                                            seen: seq<string>)
    returns (pages: seq<seq<Option<string>>>, last: Option<string>)
    requires n <= 65537
    ensures LeadsTo(hub, page, n, pages, last) && n + |pages| <= 65537
    ensures AcceptsAll(callback, seen, AllNames(pages))
    ensures IsLast(hub, callback, last, n + |pages|, seen + AllNames(pages))
    decreases 65537 - n
  {
    hide StopsAt, Names, StopIndex;
    if IsLast(hub, callback, page, n, seen) {
      pages, last := [], page;
      assert seen + [] == seen;
    } else {
      var entries := hub(n, page).entries;
      StopIsUnique(callback, seen, entries);
      var names := Names(entries);
      NoStopAcceptsAll(callback, seen, entries);
      var rest, end := EveryListingEnds(hub, callback, hub(n, page).next, n + 1, seen + names);
      pages, last := [entries] + rest, end;
      AcceptsTogether(callback, seen, names, AllNames(rest));
      assert pages[1..] == rest;
      assert seen + names + AllNames(rest) == seen + AllNames(pages);
    }
  }

  lemma NoStopAcceptsAll(callback: Callback, seen: seq<string>, entries: seq<Option<string>>)
    requires StopsAt(callback, seen, entries, |entries|)
    ensures AcceptsAll(callback, seen, Names(entries))
  {
    assert entries[..|entries|] == entries;
  }

  // ----- visiting everything

  /** The hub serves these pages one after the other, from request number n for `page`. */
  ghost predicate Serves(hub: HubFunction, page: Option<string>, n: nat, pages: seq<seq<Option<string>>>)
    decreases |pages|
  {
    && pages != []
    && hub(n, page).Page?
    && hub(n, page).entries == pages[0]
    && (if |pages| == 1 then hub(n, page).next.None? || pages[0] == []
        else hub(n, page).next.Some? && pages[0] != [] && Serves(hub, hub(n, page).next, n + 1, pages[1..]))
  }

  function AllNames(pages: seq<seq<Option<string>>>): seq<string> {
    if pages == [] then [] else Names(pages[0]) + AllNames(pages[1..])
  }

  lemma AlwaysTrueNeverStops(callback: Callback, seen: seq<string>, entries: seq<Option<string>>)
    requires forall s, x :: callback(s, x)
    ensures StopIndex(callback, seen, entries) == |entries|
  {
    StopIsFirstRefusal(callback, seen, entries, |entries|);
  }

  lemma {:induction false} VisitsServedPages(hub: HubFunction, callback: Callback, reconnects: bool,
                                             page: Option<string>,
                                             n: nat, seen: seq<string>, pages: seq<seq<Option<string>>>)
    requires forall s, x :: callback(s, x)
    requires Serves(hub, page, n, pages) && n + |pages| <= CALL_LIMIT + 1
    ensures var l := List(hub, callback, reconnects, page, n, |seen|, seen);
            l.result == Ok(|seen| + |AllNames(pages)|) && l.visited == seen + AllNames(pages)
    decreases |pages|
  {
    hide List, Names;
    var names := Names(pages[0]);
    ServedPage(hub, callback, reconnects, page, n, seen, pages);
    if |pages| > 1 {
      VisitsServedPages(hub, callback, reconnects, hub(n, page).next, n + 1, seen + names, pages[1..]);
      assert seen + names + AllNames(pages[1..]) == seen + AllNames(pages);
    } else {
      assert AllNames(pages) == names + AllNames([]);
    }
  }

  lemma ServedPage(hub: HubFunction, callback: Callback, reconnects: bool, page: Option<string>,
                   n: nat, seen: seq<string>, pages: seq<seq<Option<string>>>)
    requires forall s, x :: callback(s, x)
    requires Serves(hub, page, n, pages) && n <= CALL_LIMIT
    ensures var l, shown := List(hub, callback, reconnects, page, n, |seen|, seen), seen + Names(pages[0]);
            if |pages| == 1 then l.result == Ok(|shown|) && l.visited == shown
            else
              var rest := List(hub, callback, reconnects, hub(n, page).next, n + 1, |shown|, shown);
              l.result == rest.result && l.visited == rest.visited
  {
    hide StopIndex, Names;
    AlwaysTrueNeverStops(callback, seen, pages[0]);
  }

  /**
   With a callback that always agrees, listFiles shows it every name of every page once, in
   order, and returns their number, also when the very first request fails and is repeated.
   */
  lemma ListsEverything(hub: HubFunction, callback: Callback, pages: seq<seq<Option<string>>>, firstFails: bool)
    requires forall s, x :: callback(s, x)
    requires if firstFails
             then hub(0, None).Failed? && Serves(hub, None, 1, pages) && |pages| <= CALL_LIMIT
             else Serves(hub, None, 0, pages) && |pages| <= CALL_LIMIT + 1
    ensures var l := List(hub, callback, true, None, 0, 0, []);
            l.result == Ok(|AllNames(pages)|) && l.visited == AllNames(pages)
  {
    hide List, AllNames, Serves;
    if firstFails {
      RepeatsFirstRequest(hub, callback, None);
      VisitsServedPages(hub, callback, true, None, 1, [], pages);
    } else {
      VisitsServedPages(hub, callback, true, None, 0, [], pages);
    }
    assert [] + AllNames(pages) == AllNames(pages);
  }

  /** A first request that fails is repeated once, over a new connection. */
  lemma RepeatsFirstRequest(hub: HubFunction, callback: Callback, page: Option<string>)
    requires hub(0, page).Failed?
    ensures var l, m := List(hub, callback, true, page, 0, 0, []), List(hub, callback, true, page, 1, 0, []);
            l == m.(requests := m.requests + 1)
  {
  }
}
