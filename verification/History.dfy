/**
 The eight-entry history of user/aarch64_browser.c as a window on an unbounded one.
 */
module History {
  import opened Bytes

  const HISTORY_SLOTS := 8

  type Url = seq<byte>

  /** A history that never forgets: the pages visited and the one shown. */
  datatype Ideal = Ideal(pages: seq<Url>, at: nat)
  {
    predicate Valid() {
      if pages == [] then at == 0 else at < |pages|
    }

    /** Showing the current page again changes nothing; a new page replaces what lay ahead. */
    function Visit(url: Url): (r: Ideal)
      requires Valid()
      ensures r.Valid()
    {
      if pages != [] && pages[at] == url then this
      else
        var kept := if pages == [] then [] else pages[..at + 1];
        Ideal(kept + [url], |kept|)
    }

    function Back(): Ideal {
      if at > 0 then this.(at := at - 1) else this
    }

    function Forward(): Ideal {
      if at + 1 < |pages| then this.(at := at + 1) else this
    }
  }

  /** Leaving a page for another shows that one, and going back shows the page left. */
  lemma {:induction false} VisitThenBack(ideal: Ideal, url: Url)
    requires ideal.Valid() && ideal.pages != [] && ideal.pages[ideal.at] != url
    ensures var visited := ideal.Visit(url);
            && visited.pages[visited.at] == url && visited.at + 1 == |visited.pages|
            && visited.Back().at == ideal.at
            && visited.pages[..ideal.at + 1] == ideal.pages[..ideal.at + 1]
            && visited.Back().Forward() == visited
  {
  }

  /** Each button undoes the other wherever it does something. */
  lemma {:induction false} BackAndForward(ideal: Ideal)
    requires ideal.Valid()
    ensures 0 < ideal.at ==> ideal.Back() != ideal && ideal.Back().Forward() == ideal
    ensures ideal.at + 1 < |ideal.pages| ==> ideal.Forward() != ideal && ideal.Forward().Back() == ideal
    ensures ideal.Back().pages == ideal.Forward().pages == ideal.pages
  {
  }

  /** The last `n` pages. */
  ghost function Last(pages: seq<Url>, n: nat): (r: seq<Url>)
    requires n <= |pages|
    ensures |r| == n
  {
    pages[|pages| - n..]
  }

  lemma {:induction false} LastTruncated(pages: seq<Url>, n: nat, cursor: nat)
    requires cursor < n <= |pages|
    ensures Last(pages, n)[..cursor + 1] == Last(pages[..|pages| - n + cursor + 1], cursor + 1)
    ensures Last(pages, n)[cursor] == pages[|pages| - n + cursor]
  {
  }

  lemma {:induction false} LastShifted(pages: seq<Url>, n: nat)
    requires 0 < n <= |pages|
    ensures Last(pages, n)[1..] == Last(pages, n - 1)
  {
  }

  lemma {:induction false} LastAppended(pages: seq<Url>, n: nat, url: Url)
    requires n <= |pages|
    ensures Last(pages, n) + [url] == Last(pages + [url], n + 1)
  {
  }

  datatype Event = Load(url: Url, loads: bool) | BackButton(loads: bool) | ForwardButton(loads: bool)

  /** What a run makes of an unbounded history of which the last `count` pages are held: the back
      button stops at the oldest page held. */
  ghost function Next(ideal: Ideal, count: nat, event: Event): (r: (Ideal, nat))
    requires ideal.Valid() && count <= |ideal.pages| && (ideal.pages != [] ==> |ideal.pages| - count <= ideal.at)
    ensures r.0.Valid() && r.1 <= |r.0.pages| && (r.0.pages != [] ==> |r.0.pages| - r.1 <= r.0.at)
  {
    match event
    case Load(url, loads) =>
      if !loads || ideal.Visit(url) == ideal then (ideal, count)
      else
        var behind := if ideal.pages == [] then 0 else ideal.at + 1 - (|ideal.pages| - count);
        (ideal.Visit(url), if behind == HISTORY_SLOTS then HISTORY_SLOTS else behind + 1)
    case BackButton(_) => (if |ideal.pages| - count < ideal.at then ideal.Back() else ideal, count)
    case ForwardButton(_) => (ideal.Forward(), count)
  }

  class History {
    const slots: array<Url>
    var count: nat
    var cursor: nat
    var address: Url
    /** What an unbounded history would hold. */
    ghost var ideal: Ideal

    /** The entries held are the last of the ideal ones, and both cursors show the same page. */
    ghost predicate Valid()
      reads this, slots
    {
      && slots.Length == HISTORY_SLOTS
      && ideal.Valid()
      && count <= HISTORY_SLOTS && count <= |ideal.pages|
      && (if count == 0 then cursor == 0 && ideal.pages == [] else cursor < count)
      && slots[..count] == Last(ideal.pages, count)
      && ideal.at == |ideal.pages| - count + cursor
    }

    constructor (address: Url)
      ensures Valid() && ideal == Ideal([], 0) && this.address == address
    {
      slots := new Url[HISTORY_SLOTS](_ => []);
      count, cursor, this.address, ideal := 0, 0, address, Ideal([], 0);
    }

    /** A page was loaded. */
    method RememberAddress()
      requires Valid()
      modifies `count, `cursor, `ideal, slots
      ensures Valid() && ideal == old(ideal).Visit(address)
      ensures (ideal, count) == Next(old(ideal), old(count), Load(address, true))
      ensures count != 0 && slots[cursor] == address
      ensures old(count) != 0 && old(slots[..])[old(cursor)] == address ==>
                count == old(count) && cursor == old(cursor) && slots[..] == old(slots[..])
    {
      hide Last;
      ghost var pages, at := ideal.pages, ideal.at;
      if count != 0 {
        LastTruncated(pages, count, cursor);
        assert slots[cursor] == slots[..count][cursor];
      }
      if count != 0 && cursor < count && slots[cursor] == address {
        return;
      }
      ghost var kept := if pages == [] then [] else pages[..at + 1];
      if cursor + 1 < count {
        count := cursor + 1;
      }
      assert slots[..count] == Last(kept, count) by {
        if count != 0 {
          assert slots[..count] == slots[..old(count)][..cursor + 1];
        } else {
          assert Last(kept, 0) == [];
        }
      }
      Push(kept);
      ideal := Ideal(kept + [address], |kept|);
    }

    /** The address goes behind the pages kept; if all slots are taken the oldest page goes. */
    method Push(ghost kept: seq<Url>)
      requires slots.Length == HISTORY_SLOTS && count <= HISTORY_SLOTS && count <= |kept|
      requires slots[..count] == Last(kept, count)
      modifies `count, `cursor, slots
      ensures count == (if old(count) == HISTORY_SLOTS then HISTORY_SLOTS else old(count) + 1) && cursor == count - 1
      ensures slots[..count] == Last(kept + [address], count) && slots[cursor] == address
    {
      hide Last;
      if count == HISTORY_SLOTS {
        LastShifted(kept, count);
        Shift();
        count := count - 1;
      }
      LastAppended(kept, count, address);
      slots[count] := address;
      cursor := count;
      count := count + 1;
      assert slots[..count] == slots[..count - 1] + [address];
    }

    /** Every slot takes its successor's entry. */
    method Shift()
      requires slots.Length == HISTORY_SLOTS
      modifies slots
      ensures slots[..HISTORY_SLOTS - 1] == old(slots[1..])
    {
      for index := 1 to HISTORY_SLOTS
        invariant forall i :: 0 <= i < index - 1 ==> slots[i] == old(slots[i + 1])
        invariant forall i :: index - 1 <= i < HISTORY_SLOTS ==> slots[i] == old(slots[i])
      {
        slots[index - 1] := slots[index];
      }
    }

    /** Going to a held entry and loading it again, successfully or not, moves the cursors together
        and forgets nothing, neither behind nor ahead. */
    method RestoreHistory(index: nat, loads: bool)
      requires Valid() && index < count
      modifies `count, `cursor, `address, `ideal, slots
      ensures Valid() && count == old(count) && cursor == index && slots[..] == old(slots[..])
      ensures ideal == old(ideal).(at := old(ideal).at - old(cursor) + index)
      ensures address == slots[index] == ideal.pages[ideal.at]
    {
      ideal := ideal.(at := ideal.at - cursor + index);
      cursor := index;
      address := slots[index];
      LastTruncated(ideal.pages, count, index);
      assert slots[..count][index] == slots[index];
      if loads {
        RememberAddress();
      }
    }

    /** The back button does what it would with an unbounded history, except exactly on the oldest
        entry held once older ones have been forgotten. */
    method Back(loads: bool)
      requires Valid()
      modifies `count, `cursor, `address, `ideal, slots
      ensures Valid() && count == old(count) && slots[..] == old(slots[..])
      ensures (ideal, count) == Next(old(ideal), old(count), BackButton(loads))
      ensures ideal == old(ideal).Back() <==> old(cursor) > 0 || count == |ideal.pages|
    {
      if count != 0 && cursor > 0 {
        RestoreHistory(cursor - 1, loads);
      }
    }

    /** The forward button works exactly when there is a page ahead. */
    method Forward(loads: bool)
      requires Valid()
      modifies `count, `cursor, `address, `ideal, slots
      ensures Valid() && count == old(count) && slots[..] == old(slots[..])
      ensures (ideal, count) == Next(old(ideal), old(count), ForwardButton(loads))
    {
      if cursor + 1 < count {
        RestoreHistory(cursor + 1, loads);
      }
    }

    method Visit(url: Url, loads: bool)
      requires Valid()
      modifies `count, `cursor, `address, `ideal, slots
      ensures Valid() && (ideal, count) == Next(old(ideal), old(count), Load(url, loads))
    {
      address := url;
      if loads {
        RememberAddress();
      }
    }

    /** Every run of visits, back and forward keeps the window aligned with the ideal history. */
    method Run(events: seq<Event>)
      requires Valid()
      modifies `count, `cursor, `address, `ideal, slots
      ensures Valid() && (ideal, count) == After(old(ideal), old(count), events)
    {
      for k := 0 to |events|
        invariant Valid()
        invariant (ideal, count) == After(old(ideal), old(count), events[..k])
      {
        assert events[..k + 1][..k] == events[..k];
        match events[k]
        case Load(url, loads) => Visit(url, loads);
        case BackButton(loads) => Back(loads);
        case ForwardButton(loads) => Forward(loads);
      }
      assert events[..|events|] == events;
    }
  }

  ghost function After(ideal: Ideal, count: nat, events: seq<Event>): (r: (Ideal, nat))
    requires ideal.Valid() && count <= |ideal.pages| && (ideal.pages != [] ==> |ideal.pages| - count <= ideal.at)
    ensures r.0.Valid() && r.1 <= |r.0.pages| && (r.0.pages != [] ==> |r.0.pages| - r.1 <= r.0.at)
  {
    if events == [] then (ideal, count)
    else
      var (i, c) := After(ideal, count, events[..|events| - 1]);
      Next(i, c, events[|events| - 1])
  }

  // The limit in use: nine pages and eight times back.

  ghost function Loads(n: nat): (r: seq<Event>)
    requires n < 256
    ensures |r| == n && forall k :: 0 <= k < n ==> r[k] == Load([k], true)
  {
    seq(n, k requires 0 <= k < n => Load([k], true))
  }

  ghost function Pages(n: nat): (r: seq<Url>)
    requires n < 256
    ensures |r| == n && forall k :: 0 <= k < n ==> r[k] == [k]
  {
    seq(n, k requires 0 <= k < n => [k])
  }

  ghost function Held(n: nat): nat {
    if n < HISTORY_SLOTS then n else HISTORY_SLOTS
  }

  lemma {:induction false} NextLoad(n: nat)
    requires 1 < n <= HISTORY_SLOTS + 1
    ensures Next(Ideal(Pages(n - 1), n - 2), Held(n - 1), Load([n - 1], true)) == (Ideal(Pages(n), n - 1), Held(n))
  {
    var pages := Pages(n - 1);
    assert pages[n - 2] == [n - 2] && [n - 2][0] != [n - 1][0];
    assert pages[..n - 1] == pages && pages + [[n - 1]] == Pages(n);
  }

  lemma {:induction false} AfterLoads(n: nat)
    requires 0 < n <= HISTORY_SLOTS + 1
    ensures After(Ideal([], 0), 0, Loads(n)) == (Ideal(Pages(n), n - 1), Held(n))
  {
    assert Loads(n)[..n - 1] == Loads(n - 1);
    if n > 1 {
      hide Next, Held;
      AfterLoads(n - 1);
      NextLoad(n);
    } else {
      assert Loads(0) == [] && [] + [[0]] == Pages(1);
    }
  }

  lemma {:induction false} AfterBacks(k: nat)
    requires k < HISTORY_SLOTS
    ensures After(Ideal([], 0), 0, Loads(9) + seq(k, _ => BackButton(true))) == (Ideal(Pages(9), 8 - k), HISTORY_SLOTS)
  {
    var events := Loads(9) + seq(k, _ => BackButton(true));
    if k == 0 {
      assert events == Loads(9);
      AfterLoads(9);
    } else {
      assert events[..|events| - 1] == Loads(9) + seq(k - 1, _ => BackButton(true));
      AfterBacks(k - 1);
    }
  }

  /** After nine pages, the eighth step back stays on the second page; the first is forgotten. */
  lemma {:induction false} FirstPageIsForgotten()
    ensures After(Ideal([], 0), 0, Loads(9) + seq(8, _ => BackButton(true))) == (Ideal(Pages(9), 1), HISTORY_SLOTS)
    ensures Ideal(Pages(9), 1).Back().at == 0
  {
    var events := Loads(9) + seq(8, _ => BackButton(true));
    assert events[..|events| - 1] == Loads(9) + seq(7, _ => BackButton(true));
    AfterBacks(7);
  }
}
