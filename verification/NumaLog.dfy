/**
  The numa log of a thread: two files of entries written in turn, in interleaved
  order.  A full file is left as it is while the other one fills, so the flushers
  have that long to deal with the frees it records.
 */
module NumaLog {
  import opened Interleave

  datatype Entry = Entry(info: int, timestamp: nat)

  /** numa_bid_to_mid within a file. */
  function Place(k: nat): (r: nat)
    requires k < NUMA_ENTRIES
    ensures r < NUMA_ENTRIES
  {
    NumaLogPermuted(k);
    Map(k, NBANKS, 4)
  }

  /** Six entries to as many lines of four, and so on through each group. */
  lemma PlaceSteps(k: nat)
    requires k < NUMA_ENTRIES
    ensures k < NBANKS ==> Place(k) == 4 * k
    ensures NBANKS <= k < 24 ==> Place(k) == Place(k - NBANKS) + 1
    ensures k >= 24 ==> Place(k) == Place(k - 24) + 24
  {
    hide Map;
    NextSlot(k, NBANKS, 4);
  }

  lemma PlaceInjective(k: nat, l: nat)
    requires k < NUMA_ENTRIES && l < NUMA_ENTRIES && Place(k) == Place(l)
    ensures k == l
  {
    Injective(k, l, NBANKS, 4);
  }

  /** A file holds entries of the history from `from` on, in the order of their ids. */
  ghost predicate Records(file: seq<Entry>, history: seq<Entry>, from: nat, n: nat)
    requires |file| == NUMA_ENTRIES && n <= NUMA_ENTRIES
  {
    from + n <= |history| && forall k: nat :: k < n ==> file[Place(k)] == history[from + k]
  }

  /** Writing the next entry leaves those before it. */
  lemma Recorded(file: seq<Entry>, history: seq<Entry>, from: nat, n: nat, e: Entry)
    requires |file| == NUMA_ENTRIES && n < NUMA_ENTRIES && Records(file, history, from, n) && from + n == |history|
    ensures Records(file[Place(n) := e], history + [e], from, n + 1)
  {
    hide Place;
    forall k: nat | k < n + 1 ensures file[Place(n) := e][Place(k)] == (history + [e])[from + k] {
      if Place(k) == Place(n) { PlaceInjective(k, n); }
    }
  }

  lemma RecordsLonger(file: seq<Entry>, history: seq<Entry>, from: nat, n: nat, e: Entry)
    requires |file| == NUMA_ENTRIES && n <= NUMA_ENTRIES && Records(file, history, from, n)
    ensures Records(file, history + [e], from, n)
  {
  }

  class NumaLog {
    var ids: seq<nat>               // nle_id of the two files
    const files: seq<array<Entry>>
    var turn: nat
    var used: set<nat>              // the arenas to be told at the next flush
    ghost var history: seq<Entry>   // all entries so far
    ghost var targets: seq<nat>     // and their arenas
    ghost var full: bool            // the other file has been filled

    ghost predicate Valid()
      reads this, files
    {
      && |ids| == 2 && |files| == 2 && files[0] != files[1] && files[0].Length == files[1].Length == NUMA_ENTRIES && turn < 2
      && ids[turn] <= NUMA_ENTRIES && ids[turn] + (if full then NUMA_ENTRIES else 0) <= |history| == |targets|
      && Records(files[turn][..], history, |history| - ids[turn], ids[turn])
      && (full ==> Records(files[1 - turn][..], history, |history| - ids[turn] - NUMA_ENTRIES, NUMA_ENTRIES))
      && (!full ==> ids[turn] == |history|)
      && (forall a :: a in used <==> a in targets[|history| - ids[turn]..])
    }

    /** numa_log_init, over two files as they are mapped. */
    constructor (a: array<Entry>, b: array<Entry>)
      requires a != b && a.Length == b.Length == NUMA_ENTRIES
      ensures Valid() && history == [] && files == [a, b]
    {
      ids, files, turn, used, history, targets, full := [0, 0], [a, b], 0, {}, [], [], false;
    }

    /** numa_log_flush: the files change roles, and exactly the arenas with entries in the one just filled are told. */
    method Flush() returns (told: set<nat>)
      requires Valid() && ids[turn] == NUMA_ENTRIES
      modifies this
      ensures Valid() && history == old(history) && targets == old(targets) && turn == 1 - old(turn) && ids[turn] == 0 && full
      ensures forall a :: a in told <==> a in targets[|history| - NUMA_ENTRIES..]
    {
      turn := 1 - turn;
      ids := ids[turn := 0];
      told := used;
      used := {};
      full := true;
    }

    /** The next entry of the file that is filling. */
    method Put(e: Entry, arena: nat)
      requires Valid() && ids[turn] < NUMA_ENTRIES
      modifies this, files
      ensures Valid() && history == old(history) + [e] && targets == old(targets) + [arena]
    {
      hide Place, Records;
      var n := ids[turn];
      ghost var from := |history| - n;
      Recorded(files[turn][..], history, from, n, e);
      if full { RecordsLonger(files[1 - turn][..], history, from - NUMA_ENTRIES, NUMA_ENTRIES, e); }
      ghost var other, was := files[1 - turn][..], files[turn][..];
      files[turn][Place(n)] := e;
      assert files[1 - turn][..] == other && files[turn][..] == was[Place(n) := e];
      used := used + {arena};
      ids := ids[turn := n + 1];
      assert (targets + [arena])[from..] == targets[from..] + [arena];
      history, targets := history + [e], targets + [arena];
    }

    /** numa_log_alloc: the entry is written, and of the entries so far at least as many as a file holds are still there. */
    method Alloc(info: int, time: nat, arena: nat) returns (told: set<nat>)
      requires Valid()
      modifies this, files
      ensures Valid() && history == old(history) + [Entry(info, time)] && targets == old(targets) + [arena]
      ensures forall j :: 0 <= j < |history| && |history| - NUMA_ENTRIES <= j ==> Held(history[j])
      ensures old(ids[turn]) < NUMA_ENTRIES ==> told == {}
      ensures old(ids[turn]) == NUMA_ENTRIES ==> forall a :: a in told <==> a in old(targets)[|old(history)| - NUMA_ENTRIES..]
    {
      hide Place, Records, Held;
      told := {};
      if ids[turn] == NUMA_ENTRIES {
        told := Flush();
      }
      Put(Entry(info, time), arena);
      AllHeld();
    }

    /** An entry stands in one of the files. */
    ghost predicate Held(e: Entry)
      reads this, files
    {
      exists f: nat, k: nat :: f < |files| && k < files[f].Length && files[f][k] == e
    }

    lemma AllHeld()
      requires Valid()
      ensures forall j :: 0 <= j < |history| && |history| - NUMA_ENTRIES <= j ==> Held(history[j])
    {
      hide Place;
      forall j | 0 <= j < |history| && |history| - NUMA_ENTRIES <= j ensures Held(history[j]) {
        var from := |history| - ids[turn];
        if j >= from {
          assert files[turn][..][Place(j - from)] == history[j];
        } else {
          assert files[1 - turn][..][Place(j - from + NUMA_ENTRIES)] == history[j];
        }
      }
    }
  }
}
