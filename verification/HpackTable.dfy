/**
 The evicting dynamic table (sections 4.1 to 4.4 of RFC 7541), newest entry first. The source pushes an entry and then
 evicts from the back; the reference keeps the whole insertion history and takes the longest part of it that fits.
 */
module HpackTable {
  import opened Bytes

  datatype Header = Header(name: bytes, value: bytes, sensitive: bool)

  datatype Table = Table(entries: seq<Header>, size: int, limit: nat)

  const EMPTY_TABLE := Table([], 0, 4096)

  function EntrySize(h: Header): nat {
    |h.name| + |h.value| + 32
  }

  function SizeOf(entries: seq<Header>): nat {
    if entries == [] then 0 else EntrySize(entries[0]) + SizeOf(entries[1..])
  }

  /** table_size_ is the sum of the entry sizes and within the limit. */
  ghost predicate Consistent(t: Table) {
    t.size == SizeOf(t.entries) && t.size <= t.limit
  }

  function Evict(t: Table): Table
    decreases |t.entries|
  {
    if t.size > t.limit && t.entries != [] then
      var last := |t.entries| - 1;
      Evict(Table(t.entries[..last], t.size - EntrySize(t.entries[last]), t.limit))
    else t
  }

  function Add(t: Table, h: Header): Table {
    Evict(Table([h] + t.entries, t.size + EntrySize(h), t.limit))
  }

  function SetLimit(t: Table, n: nat): Table {
    Evict(t.(limit := n))
  }

  /** The entries of a newest-first history that fit, as long as every newer one fits too. */
  ghost function Fit(history: seq<Header>, room: int): seq<Header> {
    if history == [] || EntrySize(history[0]) > room then []
    else [history[0]] + Fit(history[1..], room - EntrySize(history[0]))
  }

  /** Fit is the longest prefix of the history within the room. */
  lemma {:induction false} FitIsLongest(history: seq<Header>, room: nat)
    ensures Fit(history, room) <= history && SizeOf(Fit(history, room)) <= room
    ensures forall n | |Fit(history, room)| < n <= |history| :: SizeOf(history[..n]) > room
  {
    if history != [] {
      var e := EntrySize(history[0]);
      if e <= room {
        FitIsLongest(history[1..], room - e);
      }
      forall n | |Fit(history, room)| < n <= |history|
        ensures SizeOf(history[..n]) > room
      {
        assert history[..n][1..] == history[1..][..n - 1];
      }
    }
  }

  lemma {:induction false} SizeOfSnoc(entries: seq<Header>, h: Header)
    ensures SizeOf(entries + [h]) == SizeOf(entries) + EntrySize(h)
  {
    if entries == [] {
      assert [h][1..] == [];
    } else {
      assert (entries + [h])[1..] == entries[1..] + [h];
      SizeOfSnoc(entries[1..], h);
    }
  }

  lemma {:induction false} FitAll(entries: seq<Header>, room: int)
    requires SizeOf(entries) <= room
    ensures Fit(entries, room) == entries
  {
    if entries != [] {
      FitAll(entries[1..], room - EntrySize(entries[0]));
    }
  }

  /** Dropping the last entry of a list that does not fit drops nothing that does. */
  lemma {:induction false} FitWithoutLast(entries: seq<Header>, room: int)
    requires entries != [] && SizeOf(entries) > room
    ensures Fit(entries[..|entries| - 1], room) == Fit(entries, room)
  {
    if |entries| > 1 && EntrySize(entries[0]) <= room {
      FitWithoutLast(entries[1..], room - EntrySize(entries[0]));
      assert entries[..|entries| - 1][1..] == entries[1..][..|entries| - 2];
    }
  }

  /** Evicting from the back leaves exactly the longest part that fits. */
  lemma {:induction false} EvictIsFit(t: Table)
    requires t.size == SizeOf(t.entries)
    ensures Consistent(Evict(t)) && Evict(t).limit == t.limit
    ensures Evict(t).entries == Fit(t.entries, t.limit)
    decreases |t.entries|
  {
    if t.size > t.limit && t.entries != [] {
      var last := |t.entries| - 1;
      assert t.entries == t.entries[..last] + [t.entries[last]];
      SizeOfSnoc(t.entries[..last], t.entries[last]);
      EvictIsFit(Table(t.entries[..last], t.size - EntrySize(t.entries[last]), t.limit));
      FitWithoutLast(t.entries, t.limit);
    } else {
      FitAll(t.entries, t.limit);
    }
  }

  lemma {:induction false} FitAgain(history: seq<Header>, wide: int, narrow: int)
    requires narrow <= wide
    ensures Fit(Fit(history, wide), narrow) == Fit(history, narrow)
  {
    if history != [] && EntrySize(history[0]) <= narrow {
      var e := EntrySize(history[0]);
      FitAgain(history[1..], wide - e, narrow - e);
      assert Fit(history, wide)[1..] == Fit(history[1..], wide - e);
    }
  }

  /** Pushing and then evicting keeps the table equal to the longest fitting part of the whole insertion history. */
  lemma AddKeepsFit(t: Table, history: seq<Header>, h: Header)
    requires Consistent(t) && t.entries == Fit(history, t.limit)
    ensures Consistent(Add(t, h)) && Add(t, h).limit == t.limit
    ensures Add(t, h).entries == Fit([h] + history, t.limit)
  {
    var pushed := Table([h] + t.entries, t.size + EntrySize(h), t.limit);
    assert pushed.entries[1..] == t.entries && ([h] + history)[1..] == history;
    EvictIsFit(pushed);
    if EntrySize(h) <= t.limit {
      FitAgain(history, t.limit, t.limit - EntrySize(h));
    }
  }

  lemma SetLimitKeepsFit(t: Table, history: seq<Header>, n: nat)
    requires Consistent(t) && t.entries == Fit(history, t.limit) && n <= t.limit
    ensures Consistent(SetLimit(t, n)) && SetLimit(t, n).limit == n
    ensures SetLimit(t, n).entries == Fit(history, n)
  {
    EvictIsFit(t.(limit := n));
    FitAgain(history, t.limit, n);
  }

  /** Section 4.4 of RFC 7541: evict until the new entry fits, then insert it, unless it never will. */
  function EvictTo(entries: seq<Header>, room: nat): seq<Header>
    decreases |entries|
  {
    if SizeOf(entries) > room && entries != [] then EvictTo(entries[..|entries| - 1], room) else entries
  }

  function EvictThenInsert(t: Table, h: Header): seq<Header> {
    if EntrySize(h) > t.limit then [] else [h] + EvictTo(t.entries, t.limit - EntrySize(h))
  }

  lemma {:induction false} EvictToIsFit(entries: seq<Header>, room: nat)
    ensures EvictTo(entries, room) == Fit(entries, room)
    decreases |entries|
  {
    if SizeOf(entries) > room && entries != [] {
      EvictToIsFit(entries[..|entries| - 1], room);
      FitWithoutLast(entries, room);
    } else {
      FitAll(entries, room);
    }
  }

  lemma PushThenEvictIsEvictThenInsert(t: Table, h: Header)
    requires Consistent(t)
    ensures Add(t, h).entries == EvictThenInsert(t, h)
  {
    var pushed := Table([h] + t.entries, t.size + EntrySize(h), t.limit);
    assert pushed.entries[1..] == t.entries;
    EvictIsFit(pushed);
    if EntrySize(h) <= t.limit {
      EvictToIsFit(t.entries, t.limit - EntrySize(h));
    }
  }

  lemma {:induction false} SizeOfPrefix(entries: seq<Header>, n: nat)
    requires n <= |entries|
    ensures SizeOf(entries[..n]) <= SizeOf(entries)
  {
    if n > 0 {
      SizeOfPrefix(entries[1..], n - 1);
      assert entries[..n][1..] == entries[1..][..n - 1];
    }
  }

  /** Fit is the only prefix that fits and cannot be extended. */
  lemma FitIs(history: seq<Header>, room: nat, p: seq<Header>)
    ensures Fit(history, room) == p <==>
            p <= history && SizeOf(p) <= room && (|p| < |history| ==> SizeOf(history[..|p| + 1]) > room)
  {
    var q := Fit(history, room);
    FitIsLongest(history, room);
    if p <= history && SizeOf(p) <= room && (|p| < |history| ==> SizeOf(history[..|p| + 1]) > room) {
      assert p == history[..|p|] && q == history[..|q|];
      if |q| > |p| {
        SizeOfPrefix(q, |p| + 1);
        assert q[..|p| + 1] == history[..|p| + 1];
      }
    }
  }
}
