/** Reading the broadcast feed: a filtered, bounded scan over paged events. */
module BroadcastFeed {
  import opened Collections
  import opened Outcomes

  const MAX_FEED_SCAN_PAGES: nat := 10
  const MAX_PAGE_SIZE := 500

  datatype Event = Event(sequence: nat, eventType: string, project: string, emitter: string)

  datatype Entry = Entry(event: Event, selfEmitted: bool)

  /** An empty set or an empty project does not filter. */
  datatype Filter = Filter(eventTypes: set<string>, project: string)

  datatype Refusal = UnknownAgent | UnknownEventType

  predicate Matches(f: Filter, e: Event) {
    && (f.eventTypes == {} || e.eventType in f.eventTypes)
    && (f.project == "" || e.project == f.project)
  }

  /** The feed is kept in ascending order of positive sequence numbers. */
  ghost predicate Ascending(log: seq<Event>) {
    && (forall i :: 0 <= i < |log| ==> log[i].sequence > 0)
    && (forall i, j :: 0 <= i < j < |log| ==> log[i].sequence < log[j].sequence)
  }

  /** The events behind a sequence number. */
  function Newer(log: seq<Event>, after: nat): seq<Event> {
    if log == [] || log[0].sequence > after then log else Newer(log[1..], after)
  }

  function PageSize(limit: int): (n: nat)
    ensures limit <= 1 ==> n == 1
    ensures 1 <= limit <= 500 ==> n == limit
    ensures limit >= 500 ==> n == 500
  {
    if Min(limit, MAX_PAGE_SIZE) < 1 then 1 else Min(limit, MAX_PAGE_SIZE)
  }

  /** One page of the event store. */
  function List(log: seq<Event>, after: nat, limit: nat): seq<Event> {
    var newer := Newer(log, after);
    newer[..Min(limit, |newer|)]
  }

  function Select(events: seq<Event>, f: Filter): seq<Event> {
    if events == [] then []
    else (if Matches(f, events[0]) then [events[0]] else []) + Select(events[1..], f)
  }

  /** How many of the waiting events a scan over that many pages looks at. */
  function Reach(waiting: seq<Event>, f: Filter, size: nat, pages: nat): (n: nat)
    requires size >= 1
    ensures n <= |waiting| && n <= pages * size
  {
    if pages == 0 then 0
    else if |waiting| < size then |waiting|
    else if Select(waiting[..size], f) != [] then size
    else size + Reach(waiting[size..], f, size, pages - 1)
  }

  /** What a read returns, apart from how it is presented. */
  function Found(log: seq<Event>, after: nat, f: Filter, size: nat): seq<Event>
    requires size >= 1
  {
    var waiting := Newer(log, after);
    Select(waiting[..Reach(waiting, f, size, MAX_FEED_SCAN_PAGES)], f)
  }

  function Present(events: seq<Event>, observer: string): (r: seq<Entry>)
    ensures |r| == |events|
  {
    seq(|events|, i requires 0 <= i < |events| => Entry(events[i], events[i].emitter == observer))
  }

  /** What a read returns, told from the events alone.  The log is looked at in
      pages that begin at `start`, the first event behind the cursor.  An event
      of a type asked for, if any were, and of the project asked for, if one
      was, is returned exactly when its page is among the first ten and no such
      event is on an earlier page; and each is marked where the observer is its
      emitter. */
  ghost predicate IsRead(
    log: seq<Event>, after: nat, start: nat, f: Filter, size: nat, observer: string, r: seq<Entry>)
    requires size >= 1
  {
    && start <= |log|
    && (forall i :: 0 <= i < |log| ==> (log[i].sequence > after <==> start <= i))
    && (forall j, p :: start <= j < |log| && OnPage(j, start, size, p) ==> (Returned(r, log[j]) <==>
          && (f.eventTypes == {} || log[j].eventType in f.eventTypes)
          && (f.project == "" || log[j].project == f.project)
          && p < 10 && NoneAskedFor(log, start, PageStart(start, size, p), f)))
    && PresentedIn(log, start, observer, r) && |r| <= size
  }

  /** None of these events is of a type and of a project that was asked for. */
  ghost predicate NoneAskedFor(log: seq<Event>, from: int, to: int, f: Filter) {
    forall i :: 0 <= from <= i < to <= |log| ==>
      (f.eventTypes != {} && log[i].eventType !in f.eventTypes) || (f.project != "" && log[i].project != f.project)
  }

  function PageStart(start: int, size: nat, page: int): int {
    start + size * page
  }

  /** The page is the one with this place. */
  predicate OnPage(place: int, start: int, size: nat, page: int) {
    PageStart(start, size, page) <= place < PageStart(start, size, page + 1)
  }

  /** Events behind the cursor, in order, marked where the observer emitted them. */
  ghost predicate PresentedIn(log: seq<Event>, start: nat, observer: string, r: seq<Entry>)
    requires start <= |log|
  {
    && (forall k :: 0 <= k < |r| ==> r[k].event in log[start..])
    && (forall k :: 0 <= k < |r| ==> (r[k].selfEmitted <==> r[k].event.emitter == observer))
    && (forall j, k :: 0 <= j < k < |r| ==> r[j].event.sequence < r[k].event.sequence)
  }

  ghost predicate Returned(r: seq<Entry>, e: Event) {
    exists k :: 0 <= k < |r| && r[k].event == e
  }

  /** The matching events of one page, added to the feed in order. */
  method AppendMatching(before: seq<Entry>, events: seq<Event>, f: Filter, observer: string) returns (feed: seq<Entry>)
    ensures feed == before + Present(Select(events, f), observer)
  {
    hide Select, Matches;
    feed := before;
    SelectNothing(f);
    for i := 0 to |events|
      invariant feed == before + Present(Select(events[..i], f), observer)
    {
      SelectSnoc(events, f, i);
      if Matches(f, events[i]) {
        feed := feed + [Entry(events[i], events[i].emitter == observer)];
      }
    }
    assert events[..|events|] == events;
  }

  lemma {:induction false} Advance(waiting: seq<Event>, seen: nat, n: nat, f: Filter)
    requires seen + n <= |waiting|
    ensures var page := waiting[seen..][..n];
      && Select(waiting[..seen + n], f) == Select(waiting[..seen], f) + Select(page, f)
      && |Select(page, f)| <= n
    ensures waiting[seen..][n..] == waiting[seen + n..]
  {
    hide Select, Matches;
    var page := waiting[seen..][..n];
    SelectConcat(waiting[..seen], page, f);
    assert waiting[..seen] + page == waiting[..seen + n];
    SelectShort(page, f);
  }

  /** One turn of the scan: the page continues what was seen, the cursor moves
      behind it, and what is still to be reached is told from the page alone. */
  lemma {:induction false} PageStep(
    log: seq<Event>, cursor: nat, waiting: seq<Event>, seen: nat, f: Filter, size: nat, pages: nat)
    requires Ascending(log) && size >= 1 && pages >= 1 && seen <= |waiting| && Newer(log, cursor) == waiting[seen..]
    ensures var events := List(log, cursor, size);
      && seen + |events| <= |waiting| && |Select(events, f)| <= |events| <= size
      && Select(waiting[..seen + |events|], f) == Select(waiting[..seen], f) + Select(events, f)
      && (events != [] ==> Newer(log, events[|events| - 1].sequence) == waiting[seen + |events|..])
      && Reach(waiting[seen..], f, size, pages) ==
         if |events| < size || Select(events, f) != [] then |events|
         else |events| + Reach(waiting[seen + |events|..], f, size, pages - 1)
  {
    hide Newer, Select, Reach, Matches, Ascending;
    var events := List(log, cursor, size);
    Advance(waiting, seen, |events|, f);
    ReachUnfolds(waiting[seen..], f, size, pages);
    if events != [] {
      NewerAt(log, cursor, |events| - 1);
    }
  }

  function Cursor(afterSequence: int): (n: nat)
    ensures n == afterSequence || afterSequence < n == 0
  {
    if afterSequence < 0 then 0 else afterSequence
  }

  method Read(log: seq<Event>, agents: set<string>, vocabulary: set<string>,
      observer: string, afterSequence: int, limit: int, f: Filter)
    returns (r: Result<seq<Entry>, Refusal>)
    requires Ascending(log)
    ensures r ==
      if observer !in agents then Err(UnknownAgent)
      else if !(f.eventTypes <= vocabulary) then Err(UnknownEventType)
      else Ok(Present(Found(log, Cursor(afterSequence), f, PageSize(limit)), observer))
    ensures r.Ok? ==>
      exists start :: IsRead(log, Cursor(afterSequence), start, f, PageSize(limit), observer, r.value)
  {
    hide IsRead, Found;
    hide Newer, Select, Reach, Matches, PageSize, List, Ascending;
    if observer !in agents {
      return Err(UnknownAgent);
    }
    if !(f.eventTypes <= vocabulary) {
      return Err(UnknownEventType);
    }
    var pageSize := PageSize(limit);
    var cursor: nat := Cursor(afterSequence);
    ghost var waiting := Newer(log, cursor);
    ghost var seen: nat := 0;
    ghost var reach := Reach(waiting, f, pageSize, MAX_FEED_SCAN_PAGES);
    var feed: seq<Entry> := [];
    var page := 0;
    assert waiting[0..] == waiting;
    SelectNothing(f);
    while page < MAX_FEED_SCAN_PAGES
      invariant 0 <= page <= MAX_FEED_SCAN_PAGES && seen <= |waiting|
      invariant Newer(log, cursor) == waiting[seen..]
      invariant feed == []
      invariant Select(waiting[..seen], f) == []
      invariant reach == seen + Reach(waiting[seen..], f, pageSize, MAX_FEED_SCAN_PAGES - page)
    {
      var events := List(log, cursor, pageSize);
      PageStep(log, cursor, waiting, seen, f, pageSize, MAX_FEED_SCAN_PAGES - page);
      if events == [] {
        break;
      }
      cursor := events[|events| - 1].sequence;
      feed := AppendMatching(feed, events, f, observer);
      seen := seen + |events|;
      page := page + 1;
      if feed != [] || |events| < pageSize {
        break;
      }
    }
    ReachUnfolds(waiting[seen..], f, pageSize, MAX_FEED_SCAN_PAGES - page);
    assert reach == seen;
    assert feed == Present(Select(waiting[..seen], f), observer);
    assert feed[..Min(pageSize, |feed|)] == feed;
    FoundIsReach(log, Cursor(afterSequence), f, pageSize);
    ghost var start := ReadExactly(log, Cursor(afterSequence), f, pageSize, observer);
    return Ok(feed[..Min(pageSize, |feed|)]);
  }

  lemma {:induction false} ReachUnfolds(waiting: seq<Event>, f: Filter, size: nat, pages: nat)
    requires size >= 1
    ensures pages == 0 ==> Reach(waiting, f, size, pages) == 0
    ensures pages > 0 && |waiting| < size ==> Reach(waiting, f, size, pages) == |waiting|
    ensures pages > 0 && |waiting| >= size && Select(waiting[..size], f) != [] ==>
      Reach(waiting, f, size, pages) == size
    ensures pages > 0 && |waiting| >= size && Select(waiting[..size], f) == [] ==>
      Reach(waiting, f, size, pages) == size + Reach(waiting[size..], f, size, pages - 1)
  {
  }

  lemma {:induction false} SelectNothing(f: Filter)
    ensures Select([], f) == []
  {
  }

  lemma {:induction false} SelectConcat(a: seq<Event>, b: seq<Event>, f: Filter)
    ensures Select(a + b, f) == Select(a, f) + Select(b, f)
  {
    hide Matches;
    if a == [] {
      assert a + b == b;
    } else {
      SelectConcat(a[1..], b, f);
      assert (a + b)[1..] == a[1..] + b && (a + b)[0] == a[0];
    }
  }

  lemma {:induction false} SelectSnoc(events: seq<Event>, f: Filter, i: nat)
    requires i < |events|
    ensures Select(events[..i + 1], f) ==
      Select(events[..i], f) + if Matches(f, events[i]) then [events[i]] else []
  {
    hide Matches;
    SelectConcat(events[..i], [events[i]], f);
    assert events[..i + 1] == events[..i] + [events[i]];
    SelectOne(events[i], f);
  }

  lemma {:induction false} SelectOne(e: Event, f: Filter)
    ensures Select([e], f) == if Matches(f, e) then [e] else []
  {
  }

  /** What comes behind an event is what the events behind it are. */
  lemma {:induction false} NewerAt(log: seq<Event>, after: nat, i: nat)
    requires Ascending(log) && i < |Newer(log, after)|
    ensures Newer(log, Newer(log, after)[i].sequence) == Newer(log, after)[i + 1..]
  {
    if log[0].sequence > after {
      NewerWithin(log, i);
    } else {
      NewerIsNewer(log[1..], after, i);
      NewerAt(log[1..], after, i);
    }
  }

  lemma {:induction false} NewerIsNewer(log: seq<Event>, after: nat, i: nat)
    requires Ascending(log) && i < |Newer(log, after)|
    ensures Newer(log, after)[i].sequence > after
  {
    if log[0].sequence <= after {
      NewerIsNewer(log[1..], after, i);
    }
  }

  lemma {:induction false} NewerWithin(log: seq<Event>, i: nat)
    requires Ascending(log) && i < |log|
    ensures Newer(log, log[i].sequence) == log[i + 1..]
  {
    if i > 0 {
      NewerWithin(log[1..], i - 1);
    }
  }

  lemma {:induction false} SelectShort(events: seq<Event>, f: Filter)
    ensures |Select(events, f)| <= |events|
  {
    if events != [] {
      SelectShort(events[1..], f);
    }
  }

  // ----- what a read means -----

  /** A read finds nothing exactly when nothing matches in the next ten pages,
      and never more than one page. */
  lemma {:induction false} FoundNothing(waiting: seq<Event>, f: Filter, size: nat, pages: nat)
    requires size >= 1
    ensures var found := Select(waiting[..Reach(waiting, f, size, pages)], f);
      && (found == [] <==> Select(waiting[..Min(pages * size, |waiting|)], f) == [])
      && |found| <= size
    decreases pages
  {
    hide Select, Matches, Reach;
    ReachUnfolds(waiting, f, size, pages);
    SelectNothing(f);
    if pages > 0 {
      if |waiting| < size {
        assert pages * size >= size;
        SelectShort(waiting, f);
        assert waiting[..|waiting|] == waiting;
      } else {
        SelectShort(waiting[..size], f);
        if Select(waiting[..size], f) != [] {
          assert pages * size >= size;
          FirstPage(waiting, f, size, Min(pages * size, |waiting|));
        } else {
          var rest := waiting[size..];
          FoundNothing(rest, f, size, pages - 1);
          assert pages * size == size + (pages - 1) * size;
          BehindThePage(waiting, f, size, Reach(rest, f, size, pages - 1));
          BehindThePage(waiting, f, size, Min((pages - 1) * size, |rest|));
        }
      }
    }
  }

  /** A page without a match adds nothing to what is found behind it. */
  lemma {:induction false} BehindThePage(waiting: seq<Event>, f: Filter, size: nat, n: nat)
    requires size + n <= |waiting| && Select(waiting[..size], f) == []
    ensures Select(waiting[..size + n], f) == Select(waiting[size..][..n], f)
  {
    hide Select;
    SelectConcat(waiting[..size], waiting[size..][..n], f);
    assert waiting[..size + n] == waiting[..size] + waiting[size..][..n];
  }

  lemma {:induction false} FirstPage(waiting: seq<Event>, f: Filter, size: nat, n: nat)
    requires size <= n <= |waiting|
    ensures Select(waiting[..size], f) != [] ==> Select(waiting[..n], f) != []
  {
    hide Select;
    SelectConcat(waiting[..size], waiting[size..n], f);
    assert waiting[..n] == waiting[..size] + waiting[size..n];
  }

  /** Where the last selected event stands. */
  lemma {:induction false} LastSelected(events: seq<Event>, f: Filter) returns (i: nat)
    requires Select(events, f) != []
    ensures i < |events| && Matches(f, events[i])
    ensures Select(events[..i + 1], f) == Select(events, f) && Select(events[i + 1..], f) == []
    ensures events[i] == Select(events, f)[|Select(events, f)| - 1]
    decreases |events|
  {
    hide Matches, Select;
    SelectNothing(f);
    assert events != [];
    var n := |events| - 1;
    SelectSnoc(events, f, n);
    assert events[..n + 1] == events;
    if Matches(f, events[n]) {
      i := n;
      assert events[i + 1..] == [];
    } else {
      i := LastSelected(events[..n], f);
      assert events[..n][..i + 1] == events[..i + 1];
      SelectConcat(events[..n][i + 1..], [events[n]], f);
      SelectOne(events[n], f);
      assert events[i + 1..] == events[..n][i + 1..] + [events[n]];
    }
  }

  /** A read's last event splits what is waiting: what the read returned, and
      what a read resumed behind that event still has before it. */
  lemma {:induction false} ResumeAt(log: seq<Event>, after: nat, f: Filter, size: nat) returns (i: nat)
    requires Ascending(log) && size >= 1 && Found(log, after, f, size) != []
    ensures var waiting, found := Newer(log, after), Found(log, after, f, size);
      && i < |waiting| && i < MAX_FEED_SCAN_PAGES * size
      && waiting[i] == found[|found| - 1] && Matches(f, waiting[i])
      && Select(waiting[..i + 1], f) == found
      && Newer(log, waiting[i].sequence) == waiting[i + 1..]
      && Select(waiting, f) == found + Select(waiting[i + 1..], f)
  {
    hide Newer, Select, Matches, Reach;
    var waiting := Newer(log, after);
    var n := Reach(waiting, f, size, MAX_FEED_SCAN_PAGES);
    i := LastSelected(waiting[..n], f);
    assert waiting[..n][..i + 1] == waiting[..i + 1];
    NewerAt(log, after, i);
    SelectConcat(waiting[..i + 1], waiting[i + 1..], f);
    assert waiting == waiting[..i + 1] + waiting[i + 1..];
  }

  lemma {:induction false} FoundIsReach(log: seq<Event>, after: nat, f: Filter, size: nat)
    requires size >= 1
    ensures var waiting := Newer(log, after);
      Found(log, after, f, size) == Select(waiting[..Reach(waiting, f, size, MAX_FEED_SCAN_PAGES)], f)
  {
  }

  lemma {:induction false} SelectedExactly(events: seq<Event>, f: Filter, e: Event)
    ensures e in Select(events, f) <==> e in events && Matches(f, e)
  {
    hide Matches;
    if events != [] {
      SelectedExactly(events[1..], f, e);
    }
  }

  ghost predicate InOrder(events: seq<Event>) {
    forall i, j :: 0 <= i < j < |events| ==> events[i].sequence < events[j].sequence
  }

  lemma {:induction false} SelectKeepsOrder(events: seq<Event>, f: Filter)
    requires InOrder(events)
    ensures InOrder(Select(events, f))
  {
    hide Matches, InOrder;
    if events != [] {
      var rest := Select(events[1..], f);
      TailInOrder(events);
      SelectKeepsOrder(events[1..], f);
      forall e | e in rest
        ensures e in events[1..]
      {
        SelectedExactly(events[1..], f, e);
      }
      HeadInOrder(events, rest);
      assert [] + rest == rest;
    } else {
      assert Select(events, f) == events;
    }
  }

  lemma {:induction false} TailInOrder(events: seq<Event>)
    requires InOrder(events) && events != []
    ensures InOrder(events[1..])
  {
  }

  lemma {:induction false} FrontInOrder(events: seq<Event>, n: nat)
    requires InOrder(events) && n <= |events|
    ensures InOrder(events[..n])
  {
  }

  lemma {:induction false} HeadInOrder(events: seq<Event>, rest: seq<Event>)
    requires InOrder(events) && events != [] && InOrder(rest) && forall e :: e in rest ==> e in events[1..]
    ensures InOrder([events[0]] + rest)
  {
    var all := [events[0]] + rest;
    forall j | 0 < j < |all|
      ensures events[0].sequence < all[j].sequence
    {
      assert all[j] == rest[j - 1] && rest[j - 1] in rest;
    }
  }

  /** A match is reached exactly when its page is among those looked at and no
      match is on an earlier page. */
  lemma {:induction false} ReachExactly(waiting: seq<Event>, f: Filter, size: nat, pages: nat, j: nat, p: int)
    requires size >= 1 && j < |waiting| && Matches(f, waiting[j]) && OnPage(j, 0, size, p)
    ensures j < Reach(waiting, f, size, pages) <==>
      p < pages && forall i :: 0 <= i < PageStart(0, size, p) ==> !Matches(f, waiting[i])
    decreases pages
  {
    hide Matches, Select, Reach, PageStart;
    ReachUnfolds(waiting, f, size, pages);
    PageBounds(j, 0, size, p);
    if pages > 0 && |waiting| >= size {
      var rest := waiting[size..];
      assert forall i :: size <= i < |waiting| ==> waiting[i] == rest[i - size];
      if j < size {
        SelectsOne(waiting[..size], f, j);
      } else if Select(waiting[..size], f) != [] {
        var i := FirstSelected(waiting[..size], f);
        assert Matches(f, waiting[i]);
      } else {
        NextPage(j, size, p);
        ReachExactly(rest, f, size, pages - 1, j - size, p - 1);
        forall i | 0 <= i < size
          ensures !Matches(f, waiting[i])
        {
          if Matches(f, waiting[i]) {
            SelectsOne(waiting[..size], f, i);
          }
        }
      }
    }
  }

  lemma {:induction false} PageBounds(place: int, start: int, size: nat, p: int)
    requires size >= 1 && start <= place && OnPage(place, start, size, p)
    ensures p >= 0 && start <= PageStart(start, size, p) <= place && (place - start < size <==> p == 0)
    ensures if p >= 1 then start + size <= PageStart(start, size, p) else PageStart(start, size, p) == start
  {
    assert p < 0 ==> size * (p + 1) <= 0;
    assert p >= 1 ==> size * p >= size;
  }

  /** Every place behind the start is on a page. */
  lemma {:induction false} EachHasPage(place: int, start: int, size: nat) returns (p: nat)
    requires size >= 1 && start <= place
    ensures OnPage(place, start, size, p)
    decreases place - start
  {
    if place < start + size {
      p := 0;
    } else {
      p := EachHasPage(place - size, start, size);
      assert size * (p + 1) == size * p + size && size * (p + 2) == size * (p + 1) + size;
      p := p + 1;
    }
  }

  lemma {:induction false} NextPage(j: nat, size: nat, p: int)
    requires size <= j && OnPage(j, 0, size, p)
    ensures OnPage(j - size, 0, size, p - 1) && PageStart(0, size, p) == size + PageStart(0, size, p - 1)
  {
  }

  lemma {:induction false} PageMoved(place: int, start: int, size: nat, p: int)
    requires OnPage(place, start, size, p)
    ensures OnPage(place - start, 0, size, p) && PageStart(start, size, p) == start + PageStart(0, size, p)
  {
  }

  /** The events behind the cursor are the end of the log. */
  lemma {:induction false} NewerIsEnd(log: seq<Event>, after: nat) returns (start: nat)
    requires Ascending(log)
    ensures start <= |log| && Newer(log, after) == log[start..]
    ensures forall i :: 0 <= i < |log| ==> (log[i].sequence > after <==> start <= i)
  {
    if log == [] || log[0].sequence > after {
      start := 0;
    } else {
      start := NewerIsEnd(log[1..], after);
      assert forall i :: 0 < i < |log| ==> log[i] == log[1..][i - 1];
      start := start + 1;
    }
  }

  /** What is found is what a read should return. */
  lemma {:induction false} ReadExactly(log: seq<Event>, after: nat, f: Filter, size: nat, observer: string)
    returns (start: nat)
    requires Ascending(log) && size >= 1
    ensures IsRead(log, after, start, f, size, observer, Present(Found(log, after, f, size), observer))
  {
    hide Newer, Select, Reach, Ascending, Returned, Found, IsRead, Matches, Present, OnPage, InOrder;
    start := NewerIsEnd(log, after);
    var waiting, found := Newer(log, after), Found(log, after, f, size);
    FoundIsReach(log, after, f, size);
    var reach := Reach(waiting, f, size, MAX_FEED_SCAN_PAGES);
    FoundNothing(waiting, f, size, MAX_FEED_SCAN_PAGES);
    WaitingAscends(log, start);
    FrontInOrder(waiting, reach);
    SelectKeepsOrder(waiting[..reach], f);
    forall e
      ensures e in found <==> e in waiting[..reach] && Matches(f, e)
    {
      SelectedExactly(waiting[..reach], f, e);
    }
    forall j, p | start <= j < |log| && OnPage(j, start, size, p)
      ensures ReturnedAsAsked(log, start, f, size, observer, found, j, p)
    {
      ReturnedExactly(log, start, f, size, observer, found, j, p);
    }
    Presented(log, start, found, observer);
    Assemble(log, after, start, f, size, observer, found);
  }

  ghost predicate ReturnedAsAsked(
    log: seq<Event>, start: nat, f: Filter, size: nat, observer: string, found: seq<Event>, j: int, p: int)
    requires size >= 1 && start <= j < |log| && OnPage(j, start, size, p)
  {
    Returned(Present(found, observer), log[j]) <==>
      Matches(f, log[j]) && p < 10 && forall i :: start <= i < PageStart(start, size, p) ==> !Matches(f, log[i])
  }

  lemma {:induction false} Assemble(
    log: seq<Event>, after: nat, start: nat, f: Filter, size: nat, observer: string, found: seq<Event>)
    requires size >= 1 && start <= |log| && |found| <= size
    requires forall i :: 0 <= i < |log| ==> (log[i].sequence > after <==> start <= i)
    requires forall j, p :: start <= j < |log| && OnPage(j, start, size, p) ==>
      ReturnedAsAsked(log, start, f, size, observer, found, j, p)
    requires PresentedIn(log, start, observer, Present(found, observer))
    ensures IsRead(log, after, start, f, size, observer, Present(found, observer))
  {
    hide Returned, Present, PageStart, PresentedIn, NoneAskedFor;
    forall j, p | start <= j < |log| && OnPage(j, start, size, p)
      ensures Returned(Present(found, observer), log[j]) <==>
        Matches(f, log[j]) && p < 10 && NoneAskedFor(log, start, PageStart(start, size, p), f)
    {
      assert ReturnedAsAsked(log, start, f, size, observer, found, j, p);
      NoneMatches(log, start, PageStart(start, size, p), f);
    }
  }

  lemma {:induction false} NoneMatches(log: seq<Event>, from: nat, to: int, f: Filter)
    requires to <= |log|
    ensures NoneAskedFor(log, from, to, f) <==> forall i :: from <= i < to ==> !Matches(f, log[i])
  {
    if !NoneAskedFor(log, from, to, f) {
      var i :| from <= i < to && (f.eventTypes == {} || log[i].eventType in f.eventTypes) &&
               (f.project == "" || log[i].project == f.project);
      assert Matches(f, log[i]);
    }
  }

  lemma {:induction false} Presented(log: seq<Event>, start: nat, found: seq<Event>, observer: string)
    requires start <= |log| && forall e :: e in found ==> e in log[start..]
    requires InOrder(found)
    ensures PresentedIn(log, start, observer, Present(found, observer))
  {
    assert forall k :: 0 <= k < |found| ==> Present(found, observer)[k].event == found[k];
  }

  lemma {:induction false} ReturnedExactly(
    log: seq<Event>, start: nat, f: Filter, size: nat, observer: string, found: seq<Event>, j: nat, p: int)
    requires size >= 1 && start <= j < |log| && OnPage(j, start, size, p)
    requires var waiting := log[start..]; var reach := Reach(waiting, f, size, MAX_FEED_SCAN_PAGES);
      && InOrder(waiting)
      && forall e :: e in found <==> e in waiting[..reach] && Matches(f, e)
    ensures ReturnedAsAsked(log, start, f, size, observer, found, j, p)
  {
    hide Reach, Returned, Matches, PageStart;
    var waiting := log[start..];
    ReturnedIsFound(found, observer, log[j]);
    assert waiting[j - start] == log[j];
    OnlyPlaceOf(waiting, Reach(waiting, f, size, MAX_FEED_SCAN_PAGES), j - start);
    PageBounds(j, start, size, p);
    PageMoved(j, start, size, p);
    if Matches(f, log[j]) {
      ReachExactly(waiting, f, size, MAX_FEED_SCAN_PAGES, j - start, p);
      NoneMoved(log, start, PageStart(0, size, p), f);
    }
  }

  lemma {:induction false} NoneMoved(log: seq<Event>, start: nat, n: int, f: Filter)
    requires start + n <= |log|
    ensures (forall i :: start <= i < start + n ==> !Matches(f, log[i])) <==>
      forall i :: 0 <= i < n ==> !Matches(f, log[start..][i])
  {
    hide Matches;
    if i :| start <= i < start + n && Matches(f, log[i]) {
      assert log[start..][i - start] == log[i];
    }
    if i :| 0 <= i < n && Matches(f, log[start..][i]) {
      assert log[start + i] == log[start..][i];
    }
  }

  lemma {:induction false} WaitingAscends(log: seq<Event>, start: nat)
    requires Ascending(log) && start <= |log|
    ensures InOrder(log[start..])
  {
  }

  lemma {:induction false} ReturnedIsFound(found: seq<Event>, observer: string, e: Event)
    ensures Returned(Present(found, observer), e) <==> e in found
  {
    var r := Present(found, observer);
    assert forall k :: 0 <= k < |r| ==> r[k].event == found[k];
  }

  lemma {:induction false} OnlyPlaceOf(waiting: seq<Event>, n: nat, j: nat)
    requires InOrder(waiting) && j < |waiting| && n <= |waiting|
    ensures waiting[j] in waiting[..n] <==> j < n
  {
    if waiting[j] in waiting[..n] {
      var i :| 0 <= i < n && waiting[..n][i] == waiting[j];
    }
    assert j < n ==> waiting[..n][j] == waiting[j];
  }

  // ----- a poller on a growing feed -----

  /** What has been delivered, and the sequence number to resume from. */
  datatype Polled = Polled(delivered: seq<Event>, cursor: nat)

  /** One read per state of the feed, each resumed behind the last event. */
  function PollAll(logs: seq<seq<Event>>, after: nat, f: Filter, size: nat): Polled
    requires size >= 1
  {
    if logs == [] then Polled([], after)
    else
      var n := |logs| - 1;
      var before := PollAll(logs[..n], after, f, size);
      var found := Found(logs[n], before.cursor, f, size);
      if found == [] then before
      else Polled(before.delivered + found, found[|found| - 1].sequence)
  }

  lemma {:induction false} NewerAppend(a: seq<Event>, b: seq<Event>, after: nat)
    requires Newer(a, after) != []
    ensures Newer(a + b, after) == Newer(a, after) + b
  {
    if a[0].sequence <= after {
      NewerAppend(a[1..], b, after);
      assert (a + b)[1..] == a[1..] + b;
    }
  }

  /** However the feed grows between reads, what has been delivered followed
      by what still waits behind the cursor is every matching event once. */
  lemma {:induction false} PollsAreExact(logs: seq<seq<Event>>, after: nat, f: Filter, size: nat, log: seq<Event>)
    requires size >= 1 && Ascending(log)
    requires forall i :: 0 <= i < |logs| ==> logs[i] <= log
    ensures var p := PollAll(logs, after, f, size);
      Select(Newer(log, after), f) == p.delivered + Select(Newer(log, p.cursor), f)
  {
    hide Newer, Select, Found;
    if logs != [] {
      var n := |logs| - 1;
      PollsAreExact(logs[..n], after, f, size, log);
      var before := PollAll(logs[..n], after, f, size);
      var seen := logs[n];
      var found := Found(seen, before.cursor, f, size);
      if found != [] {
        assert logs[n] <= log;
        assert Ascending(seen) by { assert forall i :: 0 <= i < |seen| ==> seen[i] == log[i]; }
        var i := ResumeAt(seen, before.cursor, f, size);
        var waiting, more := Newer(seen, before.cursor), log[|seen|..];
        assert log == seen + more;
        NewerAppend(seen, more, before.cursor);
        NewerAt(log, before.cursor, i);
        SelectConcat(waiting[..i + 1], waiting[i + 1..] + more, f);
        assert Newer(log, before.cursor) == waiting[..i + 1] + (waiting[i + 1..] + more);
        assert Newer(log, before.cursor)[i + 1..] == waiting[i + 1..] + more;
      }
    }
  }

  // ----- when a poller reaches everything -----

  function Poll(log: seq<Event>, after: nat, f: Filter, size: nat, rounds: nat): seq<Event>
    requires size >= 1
    decreases rounds
  {
    var found := Found(log, after, f, size);
    if rounds == 0 || found == [] then []
    else found + Poll(log, found[|found| - 1].sequence, f, size, rounds - 1)
  }

  function Copies(log: seq<Event>, n: nat): (logs: seq<seq<Event>>)
    ensures |logs| == n && forall i :: 0 <= i < n ==> logs[i] == log
  {
    seq(n, _ => log)
  }

  /** While the feed does not grow, polling it is reading it again and again. */
  lemma {:induction false} PollsOfOneLog(log: seq<Event>, after: nat, f: Filter, size: nat, n: nat)
    requires size >= 1
    ensures PollAll(Copies(log, n), after, f, size).delivered == Poll(log, after, f, size, n)
    decreases n
  {
    hide Found;
    if n > 0 {
      PollsInFront(log, after, f, size, n);
      var found := Found(log, after, f, size);
      if found == [] {
        PollsOfNothing(log, after, f, size, n - 1);
      } else {
        PollsOfOneLog(log, found[|found| - 1].sequence, f, size, n - 1);
      }
    }
  }

  lemma {:induction false} PollsOfNothing(log: seq<Event>, after: nat, f: Filter, size: nat, n: nat)
    requires size >= 1 && Found(log, after, f, size) == []
    ensures PollAll(Copies(log, n), after, f, size) == Polled([], after)
  {
    hide Found;
    if n > 0 {
      assert Copies(log, n)[..n - 1] == Copies(log, n - 1);
      PollsOfNothing(log, after, f, size, n - 1);
    }
  }

  /** The first of several reads, and the others resumed behind it. */
  lemma {:induction false} PollsInFront(log: seq<Event>, after: nat, f: Filter, size: nat, n: nat)
    requires size >= 1 && n > 0
    ensures var found := Found(log, after, f, size);
      PollAll(Copies(log, n), after, f, size) ==
        if found == [] then PollAll(Copies(log, n - 1), after, f, size)
        else
          var rest := PollAll(Copies(log, n - 1), found[|found| - 1].sequence, f, size);
          Polled(found + rest.delivered, rest.cursor)
  {
    hide Found;
    var logs := Copies(log, n);
    assert logs[..n - 1] == Copies(log, n - 1);
    if n == 1 {
      var found := Found(log, after, f, size);
      assert found + [] == found && [] + found == found;
    } else {
      PollsInFront(log, after, f, size, n - 1);
      assert Copies(log, n - 1)[..n - 2] == Copies(log, n - 2);
      PollsAppend(log, after, f, size, n);
    }
  }

  lemma {:induction false} PollsAppend(log: seq<Event>, after: nat, f: Filter, size: nat, n: nat)
    requires size >= 1 && n > 0
    ensures var before := PollAll(Copies(log, n - 1), after, f, size);
      var found := Found(log, before.cursor, f, size);
      PollAll(Copies(log, n), after, f, size) ==
        if found == [] then before else Polled(before.delivered + found, found[|found| - 1].sequence)
  {
    hide Found;
    assert Copies(log, n)[..n - 1] == Copies(log, n - 1);
  }

  /** No match hides behind that many events without one. */
  ghost predicate Gapless(waiting: seq<Event>, f: Filter, bound: nat) {
    forall i, j :: 0 <= i <= j < |waiting| && Matches(f, waiting[j]) && Select(waiting[i..j], f) == [] ==>
      j - i < bound
  }

  lemma {:induction false} FirstSelected(events: seq<Event>, f: Filter) returns (j: nat)
    requires Select(events, f) != []
    ensures j < |events| && Matches(f, events[j]) && Select(events[..j], f) == []
  {
    hide Matches;
    if Matches(f, events[0]) {
      j := 0;
    } else {
      j := FirstSelected(events[1..], f);
      assert events[..j + 1][1..] == events[1..][..j];
      j := j + 1;
    }
  }

  lemma {:induction false} GaplessBehind(waiting: seq<Event>, f: Filter, bound: nat, k: nat)
    requires k <= |waiting| && Gapless(waiting, f, bound)
    ensures Gapless(waiting[k..], f, bound)
  {
    hide Select, Matches;
    var rest := waiting[k..];
    forall i, j | 0 <= i <= j < |rest| && Matches(f, rest[j]) && Select(rest[i..j], f) == []
      ensures j - i < bound
    {
      assert rest[i..j] == waiting[k + i..k + j];
      assert rest[j] == waiting[k + j];
    }
  }

  lemma {:induction false} SelectsOne(events: seq<Event>, f: Filter, j: nat)
    requires j < |events| && Matches(f, events[j])
    ensures Select(events, f) != []
  {
    hide Matches;
    if j > 0 {
      SelectsOne(events[1..], f, j - 1);
    }
  }

  lemma {:induction false} PollerDelivers(log: seq<Event>, after: nat, f: Filter, size: nat, rounds: nat)
    requires Ascending(log) && size >= 1 && Gapless(Newer(log, after), f, MAX_FEED_SCAN_PAGES * size)
    requires rounds >= |Select(Newer(log, after), f)|
    ensures Poll(log, after, f, size, rounds) == Select(Newer(log, after), f)
    decreases rounds
  {
    hide Newer, Select, Matches, Reach;
    var waiting := Newer(log, after);
    var found := Found(log, after, f, size);
    FoundNothing(waiting, f, size, MAX_FEED_SCAN_PAGES);
    if Select(waiting, f) != [] {
      var j := FirstSelected(waiting, f);
      assert waiting[0..j] == waiting[..j];
      var n := Min(MAX_FEED_SCAN_PAGES * size, |waiting|);
      SelectsOne(waiting[..n], f, j);
      var i := ResumeAt(log, after, f, size);
      GaplessBehind(waiting, f, MAX_FEED_SCAN_PAGES * size, i + 1);
      PollerDelivers(log, waiting[i].sequence, f, size, rounds - 1);
    } else if found != [] {
      var i := ResumeAt(log, after, f, size);
    }
  }

  lemma {:induction false} SliceBehind(s: seq<Event>, k: nat, i: nat, j: nat)
    requires k <= i <= j <= |s|
    ensures s[k..][i - k..j - k] == s[i..j]
  {
  }

  /** Behind a gap that wide a poller never sees the match. */
  lemma {:induction false} PollerStuck(log: seq<Event>, after: nat, f: Filter, size: nat, rounds: nat, i: nat, j: nat)
    requires Ascending(log) && size >= 1
    requires i <= j < |Newer(log, after)| && j - i >= MAX_FEED_SCAN_PAGES * size
    requires Select(Newer(log, after)[i..j], f) == []
    ensures |Poll(log, after, f, size, rounds)| <= |Select(Newer(log, after)[..i], f)|
    decreases rounds
  {
    hide Newer, Select, Matches, Reach;
    var waiting := Newer(log, after);
    var found := Found(log, after, f, size);
    if rounds > 0 && found != [] {
      var k := ResumeAt(log, after, f, size);
      assert k < i by {
        if i <= k {
          assert waiting[i..j][k - i] == waiting[k];
          SelectsOne(waiting[i..j], f, k - i);
        }
      }
      var rest := waiting[k + 1..];
      SliceBehind(waiting, k + 1, i, j);
      PollerStuck(log, waiting[k].sequence, f, size, rounds - 1, i - k - 1, j - k - 1);
      SelectConcat(waiting[..k + 1], rest[..i - k - 1], f);
      assert waiting[..i] == waiting[..k + 1] + rest[..i - k - 1];
    }
  }

  /** A poller that keeps asking gets every matching event, in order and once,
      exactly when no gap between matches is ten pages wide. */
  lemma {:induction false} PollerReachesAll(log: seq<Event>, after: nat, f: Filter, size: nat)
    requires Ascending(log) && size >= 1
    ensures Gapless(Newer(log, after), f, MAX_FEED_SCAN_PAGES * size) <==>
      forall rounds: nat :: rounds >= |Select(Newer(log, after), f)| ==>
        Poll(log, after, f, size, rounds) == Select(Newer(log, after), f)
  {
    hide Newer, Select, Matches, Poll;
    var waiting := Newer(log, after);
    var bound := MAX_FEED_SCAN_PAGES * size;
    if Gapless(waiting, f, bound) {
      forall rounds: nat | rounds >= |Select(waiting, f)|
        ensures Poll(log, after, f, size, rounds) == Select(waiting, f)
      {
        PollerDelivers(log, after, f, size, rounds);
      }
    } else {
      var i, j :| 0 <= i <= j < |waiting| && Matches(f, waiting[j]) && Select(waiting[i..j], f) == [] && j - i >= bound;
      var rounds := |Select(waiting, f)|;
      PollerStuck(log, after, f, size, rounds, i, j);
      SelectConcat(waiting[..i], waiting[i..], f);
      assert waiting == waiting[..i] + waiting[i..];
      SelectsOne(waiting[i..], f, j - i);
    }
  }

  /** Ten pages of events of another project, and one of the wanted project behind them. */
  function Buried(size: nat): (log: seq<Event>)
    ensures |log| == MAX_FEED_SCAN_PAGES * size + 1
    ensures forall i :: 0 <= i < |log| ==>
      log[i] == Event(i + 1, "task", if i == MAX_FEED_SCAN_PAGES * size then "mine" else "theirs", "agent")
  {
    seq(MAX_FEED_SCAN_PAGES * size + 1, i requires 0 <= i =>
      Event(i + 1, "task", if i == MAX_FEED_SCAN_PAGES * size then "mine" else "theirs", "agent"))
  }

  lemma {:induction false} NoneSelected(events: seq<Event>, f: Filter)
    requires forall i :: 0 <= i < |events| ==> !Matches(f, events[i])
    ensures Select(events, f) == []
  {
    hide Matches;
    if events != [] {
      NoneSelected(events[1..], f);
    }
  }

  /** The poller is never given it, however often it asks. */
  lemma {:induction false} BuriedForEver(size: nat, rounds: nat)
    requires size >= 1
    ensures var log, f := Buried(size), Filter({}, "mine");
      && Ascending(log) && Select(Newer(log, 0), f) == [log[|log| - 1]]
      && Poll(log, 0, f, size, rounds) == []
  {
    var log, f, n := Buried(size), Filter({}, "mine"), MAX_FEED_SCAN_PAGES * size;
    assert "mine"[0] == 'm' && "theirs"[0] == 't';
    hide Buried, Select, Poll;
    assert log[0].sequence > 0;
    assert Newer(log, 0) == log;
    assert log[0..n] == log[..n];
    NoneSelected(log[0..n], f);
    SelectNothing(f);
    SelectSnoc(log, f, n);
    assert log[..n + 1] == log;
    PollerStuck(log, 0, f, size, rounds, 0, n);
    assert log[..0] == [];
  }
}
