/** The paged history of one release: the reader's list stays one newest stretch of the log. */
module HistoryLog {
  import opened Options

  /** A recorded entry and the identity that paging compares. */
  datatype Entry = Entry(key: string, body: nat)

  /** Entries newest first; the cursor is the number of entries older than the page. */
  datatype Page = Page(items: seq<Entry>, cursor: Option<nat>)

  ghost predicate DistinctKeys(log: seq<Entry>) {
    forall i, j :: 0 <= i < j < |log| ==> log[i].key != log[j].key
  }

  /** The stretch of the log from position `lo` up to `hi`, newest first. */
  function Newest(log: seq<Entry>, lo: nat, hi: nat): (r: seq<Entry>)
    requires lo <= hi <= |log|
    ensures |r| == hi - lo && forall i :: 0 <= i < hi - lo ==> r[i] == log[hi - 1 - i]
  {
    seq(hi - lo, i requires 0 <= i < hi - lo => log[hi - 1 - i])
  }

  /** A page below `start` reaches down to `lo`, makes progress, and points on unless it is the last. */
  ghost predicate PageDownTo(log: seq<Entry>, start: nat, lo: nat, page: Page) {
    && lo <= start <= |log| && (start > 0 ==> lo < start)
    && page.items == Newest(log, lo, start)
    && (page.cursor == Some(lo) || (page.cursor == None && lo == 0))
    && (start == 0 ==> page.cursor == None)
  }

  function Keys(s: seq<Entry>): set<string> {
    set e | e in s :: e.key
  }

  /** Keeps the first entry of each key. */
  function FirstOfEachKey(s: seq<Entry>): seq<Entry> {
    if s == [] then []
    else
      var init, last := s[..|s| - 1], s[|s| - 1];
      FirstOfEachKey(init) + if last.key in Keys(init) then [] else [last]
  }

  /** Puts the newly read records before the displayed ones and drops repeated identities. */
  method HistoryMerge(current: seq<Entry>, incoming: seq<Entry>) returns (merged: seq<Entry>)
    ensures merged == FirstOfEachKey(incoming + current)
  {
    var all := incoming + current;
    var seen: set<string> := {};
    merged := [];
    for i := 0 to |all|
      invariant seen == Keys(all[..i])
      invariant merged == FirstOfEachKey(all[..i])
    {
      assert all[..i + 1][..i] == all[..i];
      assert forall e :: e in all[..i + 1] <==> e in all[..i] || e == all[i];
      if all[i].key !in seen {
        seen := seen + {all[i].key};
        merged := merged + [all[i]];
      }
    }
    assert all[..|all|] == all;
  }

  /** `pos` tells where each kept entry stood: in the same order, each at the first place of its key. */
  ghost predicate FirstPlaces(s: seq<Entry>, kept: seq<Entry>, pos: seq<nat>) {
    && |pos| == |kept|
    && (forall i :: 0 <= i < |pos| ==> pos[i] < |s| && kept[i] == s[pos[i]])
    && (forall i, j :: 0 <= i < |pos| && 0 <= j < pos[i] ==> s[j].key != kept[i].key)
    && (forall i, j :: 0 <= i < j < |pos| ==> pos[i] < pos[j])
  }

  lemma KeysAppend(s: seq<Entry>, e: Entry)
    ensures Keys(s + [e]) == Keys(s) + {e.key}
  {
    forall k | k in Keys(s) + {e.key} ensures k in Keys(s + [e]) {
      var x :| x in s + [e] && x.key == k;
    }
  }

  lemma DistinctAppend(s: seq<Entry>, e: Entry)
    requires DistinctKeys(s) && e.key !in Keys(s)
    ensures DistinctKeys(s + [e])
  {
    forall i | 0 <= i < |s| ensures s[i].key != e.key {
      KeyOfMember(s, s[i]);
    }
  }

  /** No key is lost and none is kept twice. */
  lemma {:induction false} KeepsEachKeyOnce(s: seq<Entry>)
    ensures DistinctKeys(FirstOfEachKey(s)) && Keys(FirstOfEachKey(s)) == Keys(s)
  {
    hide DistinctKeys, Keys, FirstOfEachKey;
    if s == [] {
      EmptyIsDistinct();
    } else {
      var init, last := s[..|s| - 1], s[|s| - 1];
      KeepsEachKeyOnce(init);
      assert s == init + [last];
      FirstOfEachKeyAppend(init, last);
      KeysAppend(init, last);
      if last.key !in Keys(init) {
        KeysAppend(FirstOfEachKey(init), last);
        DistinctAppend(FirstOfEachKey(init), last);
      } else {
        assert FirstOfEachKey(s) == FirstOfEachKey(init);
        assert Keys(init) + {last.key} == Keys(init);
      }
    }
  }

  /** Of each key the first entry stays, in the old order. */
  lemma {:induction false} KeepsFirstPlaces(s: seq<Entry>) returns (pos: seq<nat>)
    ensures FirstPlaces(s, FirstOfEachKey(s), pos)
  {
    hide Keys;
    pos := [];
    if s != [] {
      var init, last := s[..|s| - 1], s[|s| - 1];
      pos := KeepsFirstPlaces(init);
      if last.key !in Keys(init) {
        forall j | 0 <= j < |init| ensures init[j].key != last.key { KeyOfMember(init, init[j]); }
        pos := pos + [|init|];
      }
    }
  }

  function Min(a: nat, b: nat): nat {
    if a < b then a else b
  }

  lemma NewKey(log: seq<Entry>, lo: nat, hi: nat)
    requires DistinctKeys(log) && lo < hi <= |log|
    ensures log[lo].key !in Keys(Newest(log, lo + 1, hi))
  {
    KeyBelow(log, lo + 1, hi, hi, hi, 0, lo);
    assert Newest(log, lo + 1, hi) + Newest(log, hi, hi)[..0] == Newest(log, lo + 1, hi);
  }

  lemma EmptyIsDistinct()
    ensures FirstOfEachKey([]) == [] && DistinctKeys([])
  {
  }

  lemma {:induction false} NewestIsDistinct(log: seq<Entry>, lo: nat, hi: nat)
    requires DistinctKeys(log) && lo <= hi <= |log|
    ensures FirstOfEachKey(Newest(log, lo, hi)) == Newest(log, lo, hi)
    decreases hi - lo
  {
    hide DistinctKeys, Keys, FirstOfEachKey;
    if lo == hi { EmptyIsDistinct(); }
    if lo < hi {
      assert Newest(log, lo, hi) == Newest(log, lo + 1, hi) + [log[lo]];
      FirstOfEachKeyAppend(Newest(log, lo + 1, hi), log[lo]);
      NewestIsDistinct(log, lo + 1, hi);
      NewKey(log, lo, hi);
    }
  }

  lemma KeyBelow(log: seq<Entry>, lo: nat, hi: nat, lo': nat, hi': nat, k: nat, p: nat)
    requires DistinctKeys(log) && lo <= hi <= |log| && lo' <= hi' <= |log| && k <= hi' - lo'
    requires p < lo && p < hi' - k
    ensures log[p].key !in Keys(Newest(log, lo, hi) + Newest(log, lo', hi')[..k])
  {
    var newer, older := Newest(log, lo, hi), Newest(log, lo', hi')[..k];
    forall e: Entry | e in newer + older ensures e.key != log[p].key {
      if e in newer {
        var i :| 0 <= i < |newer| && newer[i] == e;
        assert e == log[hi - 1 - i];
      } else {
        var i :| 0 <= i < |older| && older[i] == e;
        assert e == log[hi' - 1 - i];
      }
    }
  }

  lemma FirstOfEachKeyAppend(init: seq<Entry>, last: Entry)
    ensures FirstOfEachKey(init + [last]) == FirstOfEachKey(init) + if last.key in Keys(init) then [] else [last]
  {
    assert (init + [last])[..|init|] == init;
  }

  /** The first `k` records of an overlapping stretch extend the newer stretch downwards. */
  lemma {:induction false} MergePrefix(log: seq<Entry>, lo: nat, hi: nat, lo': nat, hi': nat, k: nat)
    requires DistinctKeys(log) && lo <= hi' <= hi <= |log| && lo' <= hi' && k <= hi' - lo'
    ensures FirstOfEachKey(Newest(log, lo, hi) + Newest(log, lo', hi')[..k]) == Newest(log, Min(lo, hi' - k), hi)
  {
    hide DistinctKeys, Keys, FirstOfEachKey;
    var newer, older := Newest(log, lo, hi), Newest(log, lo', hi');
    if k == 0 {
      assert newer + older[..0] == newer;
      NewestIsDistinct(log, lo, hi);
    } else {
      MergePrefix(log, lo, hi, lo', hi', k - 1);
      var all, init, p := newer + older[..k], newer + older[..k - 1], hi' - k;
      assert all == init + [log[p]];
      FirstOfEachKeyAppend(init, log[p]);
      if p >= lo {
        assert newer[hi - 1 - p] == log[p] && newer[hi - 1 - p] in init;
        KeyOfMember(init, log[p]);
      } else {
        KeyBelow(log, lo, hi, lo', hi', k - 1, p);
        assert Newest(log, p, hi) == Newest(log, p + 1, hi) + [log[p]];
      }
    }
  }

  lemma KeyOfMember(s: seq<Entry>, e: Entry)
    requires e in s
    ensures e.key in Keys(s)
  {
  }

  /** Merging two overlapping or touching stretches gives one stretch, whichever reaches lower. */
  lemma MergeStretches(log: seq<Entry>, lo: nat, hi: nat, lo': nat, hi': nat)
    requires DistinctKeys(log) && lo <= hi' <= hi <= |log| && lo' <= hi'
    ensures FirstOfEachKey(Newest(log, lo, hi) + Newest(log, lo', hi')) == Newest(log, Min(lo, lo'), hi)
  {
    hide DistinctKeys, Keys, FirstOfEachKey;
    var older := Newest(log, lo', hi');
    MergePrefix(log, lo, hi, lo', hi', hi' - lo');
    assert older[..hi' - lo'] == older;
  }
}

module HistoryPaging {
  import opened Options
  import opened HistoryLog

  /** The indexed history: appended to by the rest of the system while a read is under way. */
  class HistoryServer {
    var log: seq<Entry>
    ghost var failures: nat // requests answered by an error

    ghost predicate Valid()
      reads this
    {
      DistinctKeys(log)
    }

    constructor ()
      ensures Valid() && log == [] && failures == 0
    {
      log := [];
      failures := 0;
    }

    /**
      Reads one page of at most `size` entries below the cursor.  A caller may assume only that
      the log kept its old entries, since others may append before the reply arrives.
      */
    method History(size: nat, cursor: Option<nat>) returns (page: Option<Page>)
      requires Valid() && size > 0 && (cursor.Some? ==> cursor.value <= |log|)
      modifies this
      ensures Valid() && old(log) <= log
      ensures failures == old(failures) + if page.None? then 1 else 0
      ensures page.Some? ==> exists start: nat, lo: nat :: && PageDownTo(log, start, lo, page.value)
                                                 && (if cursor.Some? then start == cursor.value else start >= |old(log)|)
    {
      if * {
        failures := failures + 1;
        return None;
      }
      var start := if cursor.Some? then cursor.value else |log|;
      var lo := if start <= size then 0 else start - size;
      var p := Page(Newest(log, lo, start), if lo > 0 then Some(lo) else None);
      assert PageDownTo(log, start, lo, p);
      return Some(p);
    }
  }

  ghost predicate Shares(items: seq<Entry>, known: seq<Entry>) {
    exists e :: e in items && e.key in Keys(known)
  }

  method AnyKnown(items: seq<Entry>, keys: set<string>) returns (found: bool)
    ensures found <==> exists e :: e in items && e.key in keys
  {
    for i := 0 to |items|
      invariant forall e :: e in items[..i] ==> e.key !in keys
    {
      if items[i].key in keys {
        return true;
      }
      assert items[..i + 1] == items[..i] + [items[i]];
    }
    assert items[..|items|] == items;
    return false;
  }

  lemma NextPage(log: seq<Entry>, start: nat, mid: nat, lo: nat)
    requires lo <= mid <= start <= |log|
    ensures Newest(log, mid, start) + Newest(log, lo, mid) == Newest(log, lo, start)
  {
  }

  lemma GrownStretch(log: seq<Entry>, log': seq<Entry>, lo: nat, hi: nat)
    requires log <= log' && lo <= hi <= |log|
    ensures Newest(log', lo, hi) == Newest(log, lo, hi)
  {
  }

  /**
    Walks a refresh across every new page until it meets a known record or the oldest one.  The
    walk always ends, and what it read is one stretch of the log.
    */
  method ReadPages(server: HistoryServer, cursor: Option<nat>, known: seq<Entry>)
    returns (page: Option<Page>, ghost start: nat, ghost lo: nat)
    requires server.Valid() && (cursor.Some? ==> cursor.value <= |server.log|)
    modifies server
    ensures server.Valid() && old(server.log) <= server.log
    ensures server.failures == old(server.failures) + if page.None? then 1 else 0
    ensures page.Some? ==>
              && PageDownTo(server.log, start, lo, page.value)
              && (if cursor.Some? then start == cursor.value else start >= |old(server.log)|)
              && (known != [] ==> lo == 0 || Shares(page.value.items, known))
  {
    start, lo := 0, 0;
    var first := server.History(40, cursor);
    if first.None? {
      return None, 0, 0;
    }
    start, lo :| && PageDownTo(server.log, start, lo, first.value)
                 && (if cursor.Some? then start == cursor.value else start >= |old(server.log)|);
    var items, next := first.value.items, first.value.cursor;
    var keys := Keys(known);
    var met := AnyKnown(items, keys);
    while known != [] && next.Some? && !met
      invariant server.Valid() && old(server.log) <= server.log && server.failures == old(server.failures)
      invariant PageDownTo(server.log, start, lo, Page(items, next))
      invariant met <==> Shares(items, known)
      decreases lo, next.Some?
    {
      ghost var before := server.log;
      var p := server.History(40, next);
      if p.None? {
        return None, 0, 0;
      }
      ghost var from: nat, lower: nat :| PageDownTo(server.log, from, lower, p.value) && from == lo;
      GrownStretch(before, server.log, lo, start);
      NextPage(server.log, start, lo, lower);
      items := items + p.value.items;
      next := p.value.cursor;
      lo := lower;
      met := AnyKnown(items, keys);
    }
    return Some(Page(items, next)), start, lo;
  }

  // ----- What one open section keeps of the log -----

  /** The list is the stretch from `lo` to `hi`; older records are reachable from the cursor. */
  ghost predicate Holds(items: seq<Entry>, cursor: Option<nat>, log: seq<Entry>, lo: nat, hi: nat) {
    && lo <= hi <= |log| && items == Newest(log, lo, hi)
    && (cursor.Some? ==> lo <= cursor.value <= hi)
    && (cursor.None? ==> lo == 0)
  }

  /** Nothing is loaded yet, or the list is one stretch of the log: no gaps and no repetitions. */
  ghost predicate Consistent(items: seq<Entry>, cursor: Option<nat>, loaded: bool, log: seq<Entry>) {
    if loaded then exists lo: nat, hi: nat :: Holds(items, cursor, log, lo, hi) else items == [] && cursor == None
  }

  lemma LogGrew(items: seq<Entry>, cursor: Option<nat>, loaded: bool, log: seq<Entry>, log': seq<Entry>)
    requires Consistent(items, cursor, loaded, log) && log <= log'
    ensures Consistent(items, cursor, loaded, log')
  {
    if loaded {
      var lo: nat, hi: nat :| Holds(items, cursor, log, lo, hi);
      GrownStretch(log, log', lo, hi);
      assert Holds(items, cursor, log', lo, hi);
    }
  }

  lemma NewestIsLogged(log: seq<Entry>, lo: nat, hi: nat, e: Entry)
    requires lo <= hi <= |log| && e in Newest(log, lo, hi)
    ensures exists p :: lo <= p < hi && log[p] == e
  {
    var i :| 0 <= i < hi - lo && Newest(log, lo, hi)[i] == e;
    assert log[hi - 1 - i] == e;
  }

  lemma SharedOverlaps(log: seq<Entry>, lo: nat, hi: nat, lo': nat, hi': nat)
    requires DistinctKeys(log) && lo <= hi <= |log| && lo' <= hi' <= |log|
    requires Shares(Newest(log, lo, hi), Newest(log, lo', hi'))
    ensures lo < hi'
  {
    var a, b := Newest(log, lo, hi), Newest(log, lo', hi');
    var e :| e in a && e.key in Keys(b);
    var f :| f in b && f.key == e.key;
    NewestIsLogged(log, lo, hi, e);
    NewestIsLogged(log, lo', hi', f);
  }

  /** An older page below the cursor extends the list downwards. */
  lemma OlderKeeps(items: seq<Entry>, cursor: Option<nat>, log: seq<Entry>, page: Page, lower: nat)
    requires DistinctKeys(log) && Consistent(items, cursor, true, log) && cursor.Some?
    requires PageDownTo(log, cursor.value, lower, page)
    ensures Consistent(FirstOfEachKey(items + page.items), page.cursor, true, log)
  {
    var lo: nat, hi: nat :| Holds(items, cursor, log, lo, hi);
    MergeStretches(log, lo, hi, lower, cursor.value);
    assert Holds(FirstOfEachKey(items + page.items), page.cursor, log, Min(lo, lower), hi);
  }

  /** A refresh that met a known record, or the oldest one, extends the list upwards without a gap. */
  lemma RefreshKeeps(items: seq<Entry>, cursor: Option<nat>, log: seq<Entry>, page: Page, start: nat, lower: nat, seen: nat)
    requires DistinctKeys(log) && items != [] && seen <= start
    requires seen <= |log| && Consistent(items, cursor, true, log[..seen])
    requires PageDownTo(log, start, lower, page) && (lower == 0 || Shares(page.items, items))
    ensures exists lo: nat :: Holds(FirstOfEachKey(page.items + items), cursor, log, lo, start)
  {
    var lo: nat, hi: nat :| Holds(items, cursor, log[..seen], lo, hi);
    GrownStretch(log[..seen], log, lo, hi);
    if lower > 0 {
      SharedOverlaps(log, lower, start, lo, hi);
    }
    MergeStretches(log, lower, start, lo, hi);
    assert Holds(FirstOfEachKey(page.items + items), cursor, log, Min(lower, lo), start);
  }

  class HistorySection {
    var items: seq<Entry>
    var cursor: Option<nat>
    var loaded: bool
    var reading: bool
    var pendingRead: bool
    var active: bool
    var error: bool

    ghost predicate Valid(log: seq<Entry>)
      reads this
    {
      Consistent(items, cursor, loaded, log)
    }

    constructor ()
      ensures Valid([]) && !loaded && !reading && !pendingRead && active
    {
      items, cursor, loaded, reading, pendingRead, active, error := [], None, false, false, false, true, false;
    }

    /** Reconciles one page without replacing older entries. */
    method AcceptPage(page: Page, older: bool)
      modifies this`items, this`cursor, this`loaded
      ensures loaded
      ensures Merged(old(items), old(cursor), old(loaded), page, older, items, cursor)
      ensures cursor == if !older && old(loaded) && old(items) != [] then old(cursor) else page.cursor
    {
      if older || !loaded || items == [] {
        cursor := page.cursor;
      }
      if older {
        items := HistoryMerge(page.items, items);
      } else {
        items := HistoryMerge(items, page.items);
      }
      loaded := true;
    }

    /**
      Reads the first page, an older page or a refresh.  A call made while another read is under
      way changes no record.  The older action is offered only while there is a cursor.  While the
      read waits, another refresh may be asked for (`again`) and the section may be closed (`closed`).
      The page read is lost only to a failed request or to the closing of the section.
      */
    method Read(server: HistoryServer, older: bool, again: bool, closed: bool) returns (accepted: bool, ghost page: Option<Page>)
      requires server.Valid() && Valid(server.log) && (older ==> cursor.Some?)
      modifies this, server
      ensures server.Valid() && old(server.log) <= server.log && Valid(server.log)
      ensures old(reading) ==> !accepted && reading && error == old(error) && server.failures == old(server.failures)
      ensures pendingRead == (old(pendingRead) || if old(reading) then !older else again)
      ensures active == (old(active) && (old(reading) || !closed))
      ensures !old(reading) ==>
                && !reading
                && (page.None? <==> server.failures > old(server.failures))
                && (accepted <==> page.Some? && active)
                && (error <==> page.None? && active)
      ensures !accepted ==> items == old(items) && cursor == old(cursor) && loaded == old(loaded)
      ensures accepted ==>
                && loaded && Merged(old(items), old(cursor), old(loaded), page.value, older, items, cursor)
                && Keys(items) == Keys(old(items)) + Keys(page.value.items)
                && cursor == (if !older && old(loaded) && old(items) != [] then old(cursor) else page.value.cursor)
      ensures accepted && !older ==>
                && (exists lo: nat, hi: nat :: Holds(items, cursor, server.log, lo, hi) && hi >= |old(server.log)|)
                && exists start, lower: nat :: start >= |old(server.log)| && PageDownTo(server.log, start, lower, page.value)
      ensures accepted && older ==> exists lower: nat :: PageDownTo(server.log, old(cursor.value), lower, page.value)
    {
      hide Consistent, PageDownTo, FirstOfEachKey, Newest, Shares, Holds, DistinctKeys, Keys, Merged;
      page := None;
      if reading {
        pendingRead := pendingRead || !older;
        return false, None;
      }
      reading := true;
      error := false;
      ghost var before := server.log;
      CursorInLog(items, cursor, loaded, before);
      var known := if !older && loaded then items else [];
      var read, start, lower := ReadPages(server, if older then cursor else None, known);
      page := read;
      pendingRead := pendingRead || again;
      active := active && !closed;
      reading := false;
      LogGrew(items, cursor, loaded, before, server.log);
      if read.None? {
        error := active;
        return false, page;
      }
      if !active {
        return false, page;
      }
      AcceptPage(read.value, older);
      MergedKeeps(old(items), old(cursor), old(loaded), before, server.log, read.value, older, start, lower, items, cursor);
      return true, page;
    }
  }

  /** The list before and after a page was merged, and the cursors. */
  ghost predicate Merged(items: seq<Entry>, cursor: Option<nat>, loaded: bool, page: Page, older: bool,
                         items': seq<Entry>, cursor': Option<nat>) {
    && items' == FirstOfEachKey(if older then items + page.items else page.items + items)
    && cursor' == if older || !loaded || items == [] then page.cursor else cursor
  }

  /** Accepting an older page, a refresh or a first page leaves the list one stretch again. */
  lemma MergedKeeps(items: seq<Entry>, cursor: Option<nat>, loaded: bool, before: seq<Entry>, log: seq<Entry>,
                    page: Page, older: bool, start: nat, lower: nat, items': seq<Entry>, cursor': Option<nat>)
    requires DistinctKeys(log) && before <= log && Consistent(items, cursor, loaded, before)
    requires PageDownTo(log, start, lower, page) && (older ==> cursor.Some?)
    requires if older then start == cursor.value else start >= |before|
    requires !older && items != [] ==> lower == 0 || Shares(page.items, items)
    requires Merged(items, cursor, loaded, page, older, items', cursor')
    ensures Consistent(items', cursor', true, log)
    ensures !older ==> exists lo: nat :: Holds(items', cursor', log, lo, start)
    ensures Keys(items') == Keys(items) + Keys(page.items)
  {
    hide Consistent, PageDownTo, FirstOfEachKey, Newest, Shares, Holds, DistinctKeys, Keys;
    CursorInLog(items, cursor, loaded, before);
    LogGrew(items, cursor, loaded, before, log);
    MergedKeys(items, page.items);
    if !loaded { NothingLoaded(items, cursor, log); }
    if older {
      OlderKeeps(items, cursor, log, page, lower);
    } else {
      if items != [] {
        assert log[..|before|] == before;
        RefreshKeeps(items, cursor, log, page, start, lower, |before|);
      } else {
        FirstKeeps(items, log, page, start, lower);
      }
      var lo: nat :| Holds(items', cursor', log, lo, start);
      HoldsIsConsistent(items', cursor', log, lo, start);
    }
  }

  /** Nothing displayed is lost and everything read arrives, in either direction. */
  lemma MergedKeys(items: seq<Entry>, read: seq<Entry>)
    ensures Keys(FirstOfEachKey(items + read)) == Keys(items) + Keys(read)
    ensures Keys(FirstOfEachKey(read + items)) == Keys(items) + Keys(read)
  {
    hide FirstOfEachKey;
    KeepsEachKeyOnce(items + read);
    KeepsEachKeyOnce(read + items);
    assert Keys(items + read) == Keys(items) + Keys(read);
    assert Keys(read + items) == Keys(items) + Keys(read);
  }

  lemma NothingLoaded(items: seq<Entry>, cursor: Option<nat>, log: seq<Entry>)
    requires Consistent(items, cursor, false, log)
    ensures items == []
  {
  }

  lemma CursorInLog(items: seq<Entry>, cursor: Option<nat>, loaded: bool, log: seq<Entry>)
    requires Consistent(items, cursor, loaded, log)
    ensures cursor.Some? ==> loaded && cursor.value <= |log|
  {
  }

  lemma HoldsIsConsistent(items: seq<Entry>, cursor: Option<nat>, log: seq<Entry>, lo: nat, hi: nat)
    requires Holds(items, cursor, log, lo, hi)
    ensures Consistent(items, cursor, true, log)
  {
  }

  /** The first page, read while nothing is displayed. */
  lemma FirstKeeps(items: seq<Entry>, log: seq<Entry>, page: Page, start: nat, lower: nat)
    requires DistinctKeys(log) && items == [] && PageDownTo(log, start, lower, page)
    ensures Holds(FirstOfEachKey(page.items + items), page.cursor, log, lower, start)
  {
    assert page.items + items == page.items;
    NewestIsDistinct(log, lower, start);
  }
}
