/** The round-level cap on tool results: results over the per-result limit are always replaced
    by previews, then the largest remaining ones, until the projected total fits. */
module Truncator {

  /** Characters a preview adds around its text. */
  const PREVIEW_OVERHEAD := 512

  datatype Config = Config(perResultThreshold: nat, totalRoundThreshold: nat, previewLength: nat) {
    function Replacement(): nat {
      previewLength + PREVIEW_OVERHEAD
    }
  }

  /** A tool result: its position in the message list and its size. */
  datatype Entry = Entry(index: nat, chars: nat)

  /** The list comes from one pass over the messages, so positions are distinct. */
  ghost predicate DistinctIndexes(entries: seq<Entry>) {
    forall i, j :: 0 <= i < j < |entries| ==> entries[i].index != entries[j].index
  }

  function Indexes(entries: seq<Entry>): set<nat> {
    set e | e in entries :: e.index
  }

  function Forced(entries: seq<Entry>, cfg: Config): set<nat> {
    set e | e in entries && e.chars > cfg.perResultThreshold :: e.index
  }

  function Min(a: nat, b: nat): nat {
    if a <= b then a else b
  }

  function Cost(e: Entry, chosen: set<nat>, cfg: Config): nat {
    if e.index in chosen then Min(e.chars, cfg.Replacement()) else e.chars
  }

  /** What the model would see if exactly `chosen` were replaced. */
  function Total(entries: seq<Entry>, chosen: set<nat>, cfg: Config): nat {
    if entries == [] then 0
    else Total(entries[..|entries| - 1], chosen, cfg) + Cost(entries[|entries| - 1], chosen, cfg)
  }

  /** Each result counts with its size, or, if it is replaced and that is shorter, with the size of its
      preview. */
  lemma {:induction false} TotalSnoc(entries: seq<Entry>, e: Entry, chosen: set<nat>, cfg: Config)
    ensures Total([], chosen, cfg) == 0
    ensures Total(entries + [e], chosen, cfg) ==
            Total(entries, chosen, cfg)
            + (if e.index in chosen && e.chars > cfg.previewLength + 512 then cfg.previewLength + 512 else e.chars)
  {
    assert (entries + [e])[..|entries|] == entries;
  }

  // ----- stable sort, largest first -----

  ghost predicate Descending(entries: seq<Entry>) {
    forall i, j :: 0 <= i < j < |entries| ==> entries[i].chars >= entries[j].chars
  }

  /** Where Python's stable descending sort puts a later element of the same list. */
  function InsertLast(sorted: seq<Entry>, e: Entry): (r: seq<Entry>)
    ensures |r| == |sorted| + 1
  {
    if sorted != [] && sorted[|sorted| - 1].chars < e.chars then
      InsertLast(sorted[..|sorted| - 1], e) + [sorted[|sorted| - 1]]
    else sorted + [e]
  }

  function SortDescending(entries: seq<Entry>): (r: seq<Entry>)
    ensures |r| == |entries|
  {
    if entries == [] then []
    else InsertLast(SortDescending(entries[..|entries| - 1]), entries[|entries| - 1])
  }

  lemma {:induction false} InsertLastIsSorted(sorted: seq<Entry>, e: Entry)
    requires Descending(sorted) && DistinctIndexes(sorted) && e.index !in Indexes(sorted)
    ensures Descending(InsertLast(sorted, e)) && DistinctIndexes(InsertLast(sorted, e))
    ensures forall x :: x in InsertLast(sorted, e) <==> x in sorted || x == e
  {
    if sorted != [] && sorted[|sorted| - 1].chars < e.chars {
      var front, last := sorted[..|sorted| - 1], sorted[|sorted| - 1];
      assert sorted == front + [last];
      assert last.index in Indexes(sorted);
      InsertLastIsSorted(front, e);
      Snoc(InsertLast(front, e), last);
    } else {
      Snoc(sorted, e);
    }
  }

  lemma Snoc(front: seq<Entry>, last: Entry)
    requires Descending(front) && DistinctIndexes(front)
    requires forall x :: x in front ==> x.chars >= last.chars && x.index != last.index
    ensures Descending(front + [last]) && DistinctIndexes(front + [last])
  {
  }

  /** The sort is a permutation: same entries, still one per position. */
  lemma {:induction false} SortIsSorted(entries: seq<Entry>)
    requires DistinctIndexes(entries)
    ensures Descending(SortDescending(entries)) && DistinctIndexes(SortDescending(entries))
    ensures forall x :: x in SortDescending(entries) <==> x in entries
  {
    if entries != [] {
      var front, last := entries[..|entries| - 1], entries[|entries| - 1];
      SortIsSorted(front);
      InsertLastIsSorted(SortDescending(front), last);
      assert entries == front + [last];
    }
  }

  ghost predicate Before(entries: seq<Entry>, x: Entry, y: Entry) {
    exists i, j :: 0 <= i < j < |entries| && entries[i] == x && entries[j] == y
  }

  lemma BeforeSnoc(entries: seq<Entry>, last: Entry, x: Entry, y: Entry)
    ensures Before(entries, x, y) ==> Before(entries + [last], x, y)
    ensures x in entries ==> Before(entries + [last], x, last)
  {
    var more := entries + [last];
    if Before(entries, x, y) {
      var i, j :| 0 <= i < j < |entries| && entries[i] == x && entries[j] == y;
      assert more[i] == x && more[j] == y;
    }
    if x in entries {
      var i :| 0 <= i < |entries| && entries[i] == x;
      assert more[i] == x && more[|entries|] == last;
    }
  }

  lemma BeforeFront(entries: seq<Entry>, x: Entry, y: Entry)
    requires entries != [] && Before(entries, x, y)
    ensures Before(entries[..|entries| - 1], x, y) || (y == entries[|entries| - 1] && x in entries[..|entries| - 1])
  {
    var n := |entries| - 1;
    var i, j :| 0 <= i < j < |entries| && entries[i] == x && entries[j] == y;
    assert entries[..n][i] == x;
    if j < n {
      assert entries[..n][j] == y;
    }
  }

  lemma {:induction false} InsertLastKeeps(sorted: seq<Entry>, e: Entry, x: Entry, y: Entry)
    requires Before(sorted, x, y)
    ensures Before(InsertLast(sorted, e), x, y)
  {
    var n := |sorted| - 1;
    if sorted[n].chars < e.chars {
      BeforeFront(sorted, x, y);
      InsertLastHolds(sorted[..n], e);
      if Before(sorted[..n], x, y) {
        InsertLastKeeps(sorted[..n], e, x, y);
      }
      BeforeSnoc(InsertLast(sorted[..n], e), sorted[n], x, y);
    } else {
      BeforeSnoc(sorted, e, x, y);
    }
  }

  lemma {:induction false} InsertLastHolds(sorted: seq<Entry>, e: Entry)
    ensures forall x :: x in InsertLast(sorted, e) <==> x in sorted || x == e
  {
    if sorted != [] && sorted[|sorted| - 1].chars < e.chars {
      InsertLastHolds(sorted[..|sorted| - 1], e);
      assert sorted == sorted[..|sorted| - 1] + [sorted[|sorted| - 1]];
    }
  }

  lemma {:induction false} InsertLastBehind(sorted: seq<Entry>, e: Entry, x: Entry)
    requires x in sorted && x.chars >= e.chars
    ensures Before(InsertLast(sorted, e), x, e)
  {
    var n := |sorted| - 1;
    if sorted[n].chars < e.chars {
      assert sorted == sorted[..n] + [sorted[n]];
      InsertLastBehind(sorted[..n], e, x);
      BeforeSnoc(InsertLast(sorted[..n], e), sorted[n], x, e);
    } else {
      BeforeSnoc(sorted, e, x, e);
    }
  }

  /** Entries of the same size stay in the order of the list. */
  lemma {:induction false} SortIsStable(entries: seq<Entry>, x: Entry, y: Entry)
    requires Before(entries, x, y) && x.chars >= y.chars
    ensures Before(SortDescending(entries), x, y)
  {
    var front, last := entries[..|entries| - 1], entries[|entries| - 1];
    BeforeFront(entries, x, y);
    if Before(front, x, y) {
      SortIsStable(front, x, y);
      InsertLastKeeps(SortDescending(front), last, x, y);
    } else {
      SortHolds(front);
      InsertLastBehind(SortDescending(front), last, x);
    }
  }

  lemma {:induction false} SortHolds(entries: seq<Entry>)
    ensures forall x :: x in SortDescending(entries) <==> x in entries
  {
    if entries != [] {
      var front, last := entries[..|entries| - 1], entries[|entries| - 1];
      SortHolds(front);
      InsertLastHolds(SortDescending(front), last);
      assert entries == front + [last];
    }
  }

  lemma {:induction false} InsertLastTotal(sorted: seq<Entry>, e: Entry, chosen: set<nat>, cfg: Config)
    ensures Total(InsertLast(sorted, e), chosen, cfg) == Total(sorted, chosen, cfg) + Cost(e, chosen, cfg)
  {
    if sorted != [] && sorted[|sorted| - 1].chars < e.chars {
      var front := sorted[..|sorted| - 1];
      InsertLastTotal(front, e, chosen, cfg);
      assert InsertLast(sorted, e)[..|sorted|] == InsertLast(front, e);
    } else {
      assert (sorted + [e])[..|sorted|] == sorted;
    }
  }

  lemma {:induction false} SortTotal(entries: seq<Entry>, chosen: set<nat>, cfg: Config)
    ensures Total(SortDescending(entries), chosen, cfg) == Total(entries, chosen, cfg)
  {
    if entries != [] {
      var front := entries[..|entries| - 1];
      SortTotal(front, chosen, cfg);
      InsertLastTotal(SortDescending(front), entries[|entries| - 1], chosen, cfg);
    }
  }

  // ----- what a choice saves -----

  function Saving(e: Entry, cfg: Config): nat {
    if e.chars > cfg.Replacement() then e.chars - cfg.Replacement() else 0
  }

  /** What `chosen` saves among the first m entries. */
  function Saved(entries: seq<Entry>, m: nat, chosen: set<nat>, cfg: Config): nat
    requires m <= |entries|
  {
    if m == 0 then 0
    else
      var last := entries[m - 1];
      Saved(entries, m - 1, chosen, cfg) + (if last.index in chosen then Saving(last, cfg) else 0)
  }

  lemma {:induction false} TotalIsSaved(entries: seq<Entry>, m: nat, chosen: set<nat>, cfg: Config)
    requires m <= |entries|
    ensures Total(entries[..m], chosen, cfg) + Saved(entries, m, chosen, cfg) == Total(entries[..m], {}, cfg)
  {
    if m > 0 {
      TotalIsSaved(entries, m - 1, chosen, cfg);
      assert entries[..m][..m - 1] == entries[..m - 1];
    }
  }

  lemma {:induction false} TotalSaved(entries: seq<Entry>, chosen: set<nat>, cfg: Config)
    ensures Total(entries, chosen, cfg) + Saved(entries, |entries|, chosen, cfg) == Total(entries, {}, cfg)
  {
    TotalIsSaved(entries, |entries|, chosen, cfg);
    assert entries[..|entries|] == entries;
  }

  lemma {:induction false} SavedOnlyHere(entries: seq<Entry>, m: nat, left: set<nat>, right: set<nat>, cfg: Config)
    requires m <= |entries|
    requires forall i :: 0 <= i < m ==> (entries[i].index in left <==> entries[i].index in right)
    ensures Saved(entries, m, left, cfg) == Saved(entries, m, right, cfg)
  {
    if m > 0 {
      SavedOnlyHere(entries, m - 1, left, right, cfg);
    }
  }

  /** A newly chosen entry adds its own saving. */
  lemma {:induction false} SavedAdd(entries: seq<Entry>, m: nat, p: nat, chosen: set<nat>, cfg: Config)
    requires DistinctIndexes(entries) && p < m <= |entries| && entries[p].index !in chosen
    ensures Saved(entries, m, chosen + {entries[p].index}, cfg)
         == Saved(entries, m, chosen, cfg) + Saving(entries[p], cfg)
  {
    if p == m - 1 {
      SavedOnlyHere(entries, p, chosen + {entries[p].index}, chosen, cfg);
    } else {
      SavedAdd(entries, m - 1, p, chosen, cfg);
    }
  }

  lemma {:induction false} SavedAll(entries: seq<Entry>, m: nat, other: set<nat>, all: set<nat>, cfg: Config)
    requires m <= |entries| && forall i :: 0 <= i < m ==> entries[i].index in all
    ensures Saved(entries, m, other, cfg) <= Saved(entries, m, all, cfg)
  {
    if m > 0 {
      SavedAll(entries, m - 1, other, all, cfg);
    }
  }

  /** `first` holds exactly the positions of the first k entries. */
  ghost predicate IsFirst(entries: seq<Entry>, k: nat, first: set<nat>) {
    k <= |entries| && forall i :: 0 <= i < |entries| ==> (entries[i].index in first <==> i < k)
  }

  /** The first k entries of a descending list save at least as much as any k entries. */
  lemma {:induction false} FirstSaveMost(entries: seq<Entry>, m: nat, k: nat, other: set<nat>, first: set<nat>,
                                         cfg: Config)
    requires Descending(entries) && DistinctIndexes(entries)
    requires k <= m <= |entries| && |other| <= k && IsFirst(entries, k, first)
    ensures Saved(entries, m, other, cfg) <= Saved(entries, m, first, cfg)
    decreases m
  {
    if k == m {
      SavedAll(entries, m, other, first, cfg);
      return;
    }
    var last := entries[m - 1];
    if last.index !in other {
      FirstSaveMost(entries, m - 1, k, other, first, cfg);
    } else {
      var kth := entries[k - 1];
      var fewer, shorter := other - {last.index}, first - {kth.index};
      FirstSaveMost(entries, m - 1, k - 1, fewer, shorter, cfg);
      SavedOnlyHere(entries, m - 1, other, fewer, cfg);
      SavedAdd(entries, m - 1, k - 1, shorter, cfg);
      assert shorter + {kth.index} == first;
    }
  }

  lemma IndexesSnoc(entries: seq<Entry>, k: nat)
    requires 0 < k <= |entries|
    ensures Indexes(entries[..k]) == Indexes(entries[..k - 1]) + {entries[k - 1].index}
  {
    assert entries[..k] == entries[..k - 1] + [entries[k - 1]];
  }

  lemma CountIndexes(entries: seq<Entry>)
    requires DistinctIndexes(entries)
    ensures |Indexes(entries)| == |entries|
  {
    if entries != [] {
      var front, last := entries[..|entries| - 1], entries[|entries| - 1];
      CountIndexes(front);
      assert entries == front + [last];
      assert last.index !in Indexes(front);
      assert Indexes(entries) == Indexes(front) + {last.index};
    }
  }

  // ----- the greedy selection -----

  /** No admissible choice fits the round total with fewer replacements. */
  ghost predicate Fewest(entries: seq<Entry>, chosen: set<nat>, cfg: Config) {
    forall other: set<nat> ::
      Forced(entries, cfg) <= other && Total(entries, other, cfg) <= cfg.totalRoundThreshold
      ==> |chosen| <= |other|
  }

  /** At the entry where the loop adds the k-th replacement, exactly the entries before it
      have been chosen. */
  lemma ChosenIsPrefix(order: seq<Entry>, k: nat, chosen: set<nat>, cfg: Config)
    requires Descending(order) && DistinctIndexes(order) && k < |order|
    requires Forced(order, cfg) <= chosen <= Forced(order, cfg) + Indexes(order[..k])
    requires forall i :: 0 <= i < k && order[i].chars > cfg.Replacement() ==> order[i].index in chosen
    requires order[k].index !in chosen && order[k].chars > cfg.Replacement()
    ensures chosen == Indexes(order[..k])
  {
    forall x | x in chosen ensures x in Indexes(order[..k]) {
      if x in Forced(order, cfg) {
        var i :| 0 <= i < |order| && order[i].index == x && order[i].chars > cfg.perResultThreshold;
        assert order[k].chars <= cfg.perResultThreshold;
        assert i < k;
        assert order[..k][i].index == x;
      }
    }
    forall x | x in Indexes(order[..k]) ensures x in chosen {
      var i :| 0 <= i < k && order[i].index == x;
    }
  }

  /** If replacing the first k entries does not fit, no k entries fit. */
  lemma {:induction false} PrefixTooLarge(order: seq<Entry>, k: nat, other: set<nat>, cfg: Config)
    requires Descending(order) && DistinctIndexes(order) && k <= |order|
    requires Total(order, Indexes(order[..k]), cfg) > cfg.totalRoundThreshold
    requires Total(order, other, cfg) <= cfg.totalRoundThreshold
    ensures |other| > k
  {
    if |other| <= k {
      FirstSaveMost(order, |order|, k, other, Indexes(order[..k]), cfg);
      TotalSaved(order, other, cfg);
      TotalSaved(order, Indexes(order[..k]), cfg);
    }
  }

  /** Adding the k-th entry is a fewest choice, and its projected total is exact. */
  lemma {:induction false} ChooseNext(order: seq<Entry>, k: nat, cfg: Config)
    requires Descending(order) && DistinctIndexes(order) && k < |order|
    requires Total(order, Indexes(order[..k]), cfg) > cfg.totalRoundThreshold
    requires order[k].chars > cfg.Replacement()
    ensures var chosen := Indexes(order[..k]) + {order[k].index};
            && Total(order, chosen, cfg) == Total(order, Indexes(order[..k]), cfg) - Saving(order[k], cfg)
            && Fewest(order, chosen, cfg)
  {
    var before := Indexes(order[..k]);
    SavedAdd(order, |order|, k, before, cfg);
    TotalSaved(order, before, cfg);
    TotalSaved(order, before + {order[k].index}, cfg);
    CountIndexes(order[..k]);
    forall other: set<nat> | Total(order, other, cfg) <= cfg.totalRoundThreshold ensures |other| > k {
      PrefixTooLarge(order, k, other, cfg);
    }
  }

  /** The state of the greedy pass before it looks at the k-th entry. */
  ghost predicate Greedy(order: seq<Entry>, k: nat, chosen: set<nat>, cfg: Config)
    requires k <= |order|
  {
    && Forced(order, cfg) <= chosen <= Forced(order, cfg) + Indexes(order[..k])
    && (forall i :: 0 <= i < k && order[i].chars > cfg.Replacement() ==> order[i].index in chosen)
    && (chosen == Forced(order, cfg) || Fewest(order, chosen, cfg))
  }

  lemma GreedySkip(order: seq<Entry>, k: nat, chosen: set<nat>, cfg: Config)
    requires k < |order| && Greedy(order, k, chosen, cfg)
    requires order[k].index in chosen || order[k].chars <= cfg.Replacement()
    ensures Greedy(order, k + 1, chosen, cfg)
  {
    IndexesSnoc(order, k + 1);
  }

  lemma {:induction false} GreedyAdd(order: seq<Entry>, k: nat, chosen: set<nat>, cfg: Config)
    requires Descending(order) && DistinctIndexes(order)
    requires k < |order| && Greedy(order, k, chosen, cfg)
    requires Total(order, chosen, cfg) > cfg.totalRoundThreshold
    requires order[k].index !in chosen && order[k].chars > cfg.Replacement()
    ensures Greedy(order, k + 1, chosen + {order[k].index}, cfg)
    ensures Total(order, chosen + {order[k].index}, cfg)
         == Total(order, chosen, cfg) - (order[k].chars - cfg.Replacement())
  {
    ChosenIsPrefix(order, k, chosen, cfg);
    ChooseNext(order, k, cfg);
    IndexesSnoc(order, k + 1);
  }

  lemma SameEntries(order: seq<Entry>, entries: seq<Entry>, cfg: Config)
    requires forall x :: x in order <==> x in entries
    ensures Indexes(order) == Indexes(entries) && Forced(order, cfg) == Forced(entries, cfg)
  {
  }

  lemma SortFewest(entries: seq<Entry>, chosen: set<nat>, cfg: Config)
    requires DistinctIndexes(entries) && Fewest(SortDescending(entries), chosen, cfg)
    ensures Fewest(entries, chosen, cfg)
  {
    SortIsSorted(entries);
    SameEntries(SortDescending(entries), entries, cfg);
    forall other: set<nat> | Forced(entries, cfg) <= other && Total(entries, other, cfg) <= cfg.totalRoundThreshold
      ensures |chosen| <= |other|
    {
      SortTotal(entries, other, cfg);
    }
  }

  /** The result for the sorted list is the result for the list as it came. */
  lemma {:induction false} GreedyResult(entries: seq<Entry>, k: nat, chosen: set<nat>, cfg: Config)
    requires DistinctIndexes(entries) && k <= |entries|
    requires Greedy(SortDescending(entries), k, chosen, cfg)
    ensures Forced(entries, cfg) <= chosen <= Indexes(entries)
    ensures chosen == Forced(entries, cfg) || Fewest(entries, chosen, cfg)
    ensures k == |entries| ==> forall e :: e in entries && e.index !in chosen ==> e.chars <= cfg.Replacement()
  {
    var order := SortDescending(entries);
    SortIsSorted(entries);
    SameEntries(order, entries, cfg);
    if Fewest(order, chosen, cfg) {
      SortFewest(entries, chosen, cfg);
    }
    forall e | k == |entries| && e in entries && e.index !in chosen ensures e.chars <= cfg.Replacement() {
      assert e in order;
    }
  }

  /** The loop state: greedy so far, with the exact projected total. */
  ghost predicate Selecting(order: seq<Entry>, k: nat, chosen: set<nat>, projected: nat, cfg: Config)
    requires k <= |order|
  {
    Greedy(order, k, chosen, cfg) && projected == Total(order, chosen, cfg)
  }

  lemma SelectNext(order: seq<Entry>, k: nat, chosen: set<nat>, projected: nat, cfg: Config)
    requires Descending(order) && DistinctIndexes(order) && k < |order|
    requires Selecting(order, k, chosen, projected, cfg) && projected > cfg.totalRoundThreshold
    requires order[k].index !in chosen && order[k].chars > cfg.Replacement()
    ensures order[k].chars - cfg.Replacement() <= projected
    ensures Selecting(order, k + 1, chosen + {order[k].index}, projected - (order[k].chars - cfg.Replacement()), cfg)
  {
    GreedyAdd(order, k, chosen, cfg);
  }

  /** Replaces the largest results one by one until the projected total fits. */
  method GreedyPass(order: seq<Entry>, forced: set<nat>, total: nat, cfg: Config)
      returns (chosen: set<nat>, projectedTotal: nat, seen: nat)
    requires Descending(order) && DistinctIndexes(order)
    requires Selecting(order, 0, forced, total, cfg) && total > cfg.totalRoundThreshold
    ensures seen <= |order| && Selecting(order, seen, chosen, projectedTotal, cfg)
    ensures projectedTotal > cfg.totalRoundThreshold ==> seen == |order|
  {
    chosen, projectedTotal, seen := forced, total, 0;
    for k := 0 to |order|
      invariant seen == k
      invariant Selecting(order, k, chosen, projectedTotal, cfg) && projectedTotal > cfg.totalRoundThreshold
    {
      var e := order[k];
      seen := k + 1;
      if e.index in chosen || e.chars <= cfg.Replacement() {
        GreedySkip(order, k, chosen, cfg);
        continue;
      }
      SelectNext(order, k, chosen, projectedTotal, cfg);
      chosen := chosen + {e.index};
      projectedTotal := projectedTotal - (e.chars - cfg.Replacement());
      if projectedTotal <= cfg.totalRoundThreshold {
        break;
      }
    }
  }

  lemma {:induction false} SelectionStarts(entries: seq<Entry>, cfg: Config)
    requires DistinctIndexes(entries)
    ensures var order, forced := SortDescending(entries), Forced(entries, cfg);
            && Descending(order) && DistinctIndexes(order)
            && Selecting(order, 0, forced, Total(entries, forced, cfg), cfg)
  {
    var order, forced := SortDescending(entries), Forced(entries, cfg);
    SortIsSorted(entries);
    SortTotal(entries, forced, cfg);
    assert Forced(order, cfg) == forced;
  }

  /** The selection: the forced replacements, then the largest results one by one until the
      projected total fits.  It chooses as few as possible, keeps the projected total exact,
      and ends over the limit only when nothing left would shrink. */
  method SelectForTruncation(entries: seq<Entry>, cfg: Config)
      returns (chosen: set<nat>, projectedTotal: nat)
    requires DistinctIndexes(entries)
    ensures projectedTotal == Total(entries, chosen, cfg)
    ensures Forced(entries, cfg) <= chosen <= Indexes(entries)
    ensures forall e :: e in entries && e.chars > cfg.perResultThreshold ==> e.index in chosen
    ensures chosen == Forced(entries, cfg) || Fewest(entries, chosen, cfg)
    ensures Total(entries, Forced(entries, cfg), cfg) <= cfg.totalRoundThreshold ==> chosen == Forced(entries, cfg)
    ensures projectedTotal > cfg.totalRoundThreshold ==>
              forall e :: e in entries && e.index !in chosen ==> e.chars <= cfg.Replacement()
  {
    chosen := Forced(entries, cfg);
    projectedTotal := Total(entries, chosen, cfg);
    if projectedTotal > cfg.totalRoundThreshold {
      var seen: nat;
      SelectionStarts(entries, cfg);
      chosen, projectedTotal, seen := GreedyPass(SortDescending(entries), chosen, projectedTotal, cfg);
      assert seen <= |entries| by {
        SortIsSorted(entries);
      }
      GreedyResult(entries, seen, chosen, cfg);
      SortTotal(entries, chosen, cfg);
    }
  }

  /** Ending over the limit means that no choice at all would fit. */
  lemma {:induction false} OverLimitIsUnavoidable(entries: seq<Entry>, chosen: set<nat>, other: set<nat>, cfg: Config)
    requires forall e :: e in entries && e.index !in chosen ==> e.chars <= cfg.Replacement()
    ensures Total(entries, chosen, cfg) <= Total(entries, other, cfg)
  {
    if entries != [] {
      OverLimitIsUnavoidable(entries[..|entries| - 1], chosen, other, cfg);
    }
  }
}
