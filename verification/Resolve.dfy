/** The scroll-and-retry search of `SmartElementResolver.resolve`
    (agent/executor/smart_locator.py).

    The page after `k` swipes is known by what each alternative finds on it and
    by its fingerprint. Pages are an oracle: nothing is assumed about how a swipe
    changes them unless a lemma says so. */
module Resolve {
  import opened Text

  datatype Selection = Unique | Index(n: nat)

  datatype Outcome<+E> =
    | Picked(element: E)
    | NotUnique(count: nat)
    | IndexOutOfRange(count: nat)
    | ScrollLimitReached(swipes: nat)
    | NotFound
    | Interrupted

  /** What alternative `i` finds on page `k`. */
  type Hits<!E> = (nat, nat) -> seq<E>

  /** Where a stop request, the deadline or a failing call ends the search with its
      own exception: while alternative `i` is tried on page `k`, or, with `i` the
      number of alternatives, on the way from page `k` to the next. */
  type Cuts = (nat, nat) -> bool

  /** The fingerprint of page `k`. */
  type Fingerprints<!S> = nat -> S

  /** `_select`, called with at least one match; the index counts from 1, and 0 would
      be Python's last element. */
  function Select<E>(matches: seq<E>, selection: Selection): Outcome<E>
    requires matches != []
  {
    match selection
    case Unique => if |matches| > 1 then NotUnique(|matches|) else Picked(matches[0])
    case Index(n) =>
      if |matches| < n then IndexOutOfRange(|matches|)
      else Picked(if n == 0 then matches[|matches| - 1] else matches[n - 1])
  }

  /** The outcome the policy asks for: the only match, the `n`-th one counted from 1,
      or the error that says how many there are. */
  ghost predicate Chosen<E(!new)>(matches: seq<E>, selection: Selection, o: Outcome<E>) {
    match o
    case Picked(e) =>
      (match selection
       case Unique => matches == [e]
       case Index(n) => if n == 0 then EndsWith(matches, e) else StandsAt(matches, n - 1, e))
    case NotUnique(count) => selection.Unique? && count == |matches| > 1
    case IndexOutOfRange(count) => selection.Index? && count == |matches| < selection.n
    case _ => false
  }

  /** Exactly `before` matches come before it. */
  ghost predicate StandsAt<E(!new)>(matches: seq<E>, before: nat, e: E) {
    exists pre, post :: |pre| == before && matches == pre + [e] + post
  }

  ghost predicate EndsWith<E(!new)>(matches: seq<E>, e: E) {
    exists pre :: matches == pre + [e]
  }

  lemma StandsAtIndex<E(!new)>(matches: seq<E>, before: nat, e: E)
    ensures StandsAt(matches, before, e) <==> before < |matches| && matches[before] == e
  {
    if before < |matches| && matches[before] == e {
      assert matches == matches[..before] + [e] + matches[before + 1..];
    }
    if pre, post :| |pre| == before && matches == pre + [e] + post {
      assert matches[before] == e;
    }
  }

  lemma EndsWithLast<E(!new)>(matches: seq<E>, e: E)
    ensures EndsWith(matches, e) <==> matches != [] && matches[|matches| - 1] == e
  {
    if matches != [] && matches[|matches| - 1] == e {
      assert matches == matches[..|matches| - 1] + [e];
    }
  }

  /** The policy asks for exactly one outcome, and `_select` gives it. */
  lemma ChosenIffSelected<E(!new)>(matches: seq<E>, selection: Selection, o: Outcome<E>)
    requires matches != []
    ensures Chosen(matches, selection, o) <==> o == Select(matches, selection)
  {
    if o.Picked? {
      if selection.Unique? {
        assert matches == [matches[0]] <==> |matches| == 1;
      } else if selection.n == 0 {
        EndsWithLast(matches, o.element);
      } else {
        StandsAtIndex(matches, selection.n - 1, o.element);
      }
    }
  }

  /** So under each policy the outcome is fixed by the list of matches. */
  lemma PolicyDecides<E(!new)>(matches: seq<E>, selection: Selection, o: Outcome<E>)
    requires matches != [] && Chosen(matches, selection, o)
    ensures selection.Unique? ==> forall e :: o == Picked(e) <==> matches == [e]
    ensures selection.Index? && selection.n > 0 ==> forall e :: o == Picked(e) <==> StandsAt(matches, selection.n - 1, e)
    ensures forall count :: o == NotUnique(count) <==> selection.Unique? && count == |matches| > 1
    ensures forall count :: o == IndexOutOfRange(count) <==> selection.Index? && count == |matches| < selection.n
  {
    ChosenIffSelected(matches, selection, o);
    forall e
      ensures Chosen(matches, selection, Picked(e)) <==> o == Picked(e)
    {
      ChosenIffSelected(matches, selection, Picked(e));
    }
  }

  /** The first alternative from `i` on that finds something on page `k`. */
  function FirstAlternative<E>(hits: Hits<E>, alts: nat, k: nat, i: nat): (r: Option<nat>)
    requires i <= alts
    ensures r.Some? ==> i <= r.value < alts && hits(k, r.value) != [] && forall j :: i <= j < r.value ==> hits(k, j) == []
    ensures r.None? ==> forall j :: i <= j < alts ==> hits(k, j) == []
    decreases alts - i
  {
    if i == alts then None
    else if hits(k, i) != [] then Some(i)
    else FirstAlternative(hits, alts, k, i + 1)
  }

  /** Two unchanged fingerprints in a row, seen after swipe `k`. */
  predicate Stable<S(==)>(sig: Fingerprints<S>, k: nat) {
    k >= 2 && sig(k) == sig(k - 1) && sig(k - 1) == sig(k - 2)
  }

  /** The last page reached when nothing is found: the first stable one, or the
      one after the last swipe of the budget. */
  function Horizon<S(==)>(sig: Fingerprints<S>, k: nat, budget: nat): (h: nat)
    requires k <= budget
    ensures k <= h <= budget && (h < budget ==> Stable(sig, h)) && forall j :: k <= j < h ==> !Stable(sig, j)
    decreases budget - k
  {
    if k == budget || Stable(sig, k) then k else Horizon(sig, k + 1, budget)
  }

  /** The last page is the first that two swipes in a row have left unchanged, or else
      the one the budget ends on. */
  lemma HorizonMeans<S>(sig: Fingerprints<S>, budget: nat)
    ensures var h := Horizon(sig, 0, budget);
            && h <= budget && (h < budget ==> h >= 2 && sig(h) == sig(h - 1) == sig(h - 2))
            && forall k :: 2 <= k < h ==> !(sig(k) == sig(k - 1) == sig(k - 2))
  {
    forall k | 2 <= k < Horizon(sig, 0, budget)
      ensures !(sig(k) == sig(k - 1) == sig(k - 2))
    {
      assert !Stable(sig, k);
    }
  }

  /** Searching the pages `k` to `last` in turn. */
  function SearchPages<E>(hits: Hits<E>, alts: nat, selection: Selection, k: nat, last: nat): Outcome<E>
    requires k <= last
    decreases last - k
  {
    match FirstAlternative(hits, alts, k, 0)
    case Some(i) => Select(hits(k, i), selection)
    case None =>
      if k < last then SearchPages(hits, alts, selection, k + 1, last)
      else if last > 0 then ScrollLimitReached(last)
      else NotFound
  }

  function RowBefore(k: nat, i: nat): seq<(nat, nat)> {
    seq(i, j requires 0 <= j < i => (k, j))
  }

  /** All cells (page, alternative) of the pages before `k`, page by page. */
  function PagesBefore(alts: nat, k: nat): seq<(nat, nat)> {
    if k == 0 then [] else PagesBefore(alts, k - 1) + RowBefore(k - 1, alts)
  }

  /** All cells up to and including (k, i), in the order of the search. */
  function CellsUpTo(alts: nat, k: nat, i: nat): seq<(nat, nat)> {
    PagesBefore(alts, k) + RowBefore(k, i + 1)
  }

  /** The first `i` alternatives on page `k` are tried without an exception. */
  predicate QuietRow(cut: Cuts, k: nat, i: nat) {
    forall j :: 0 <= j < i ==> !cut(k, j)
  }

  predicate EmptyRow<E(==)>(hits: Hits<E>, k: nat, i: nat) {
    forall j :: 0 <= j < i ==> hits(k, j) == []
  }

  /** Tries the alternatives on page `k` in turn: `tried` is the one that matched or
      raised, or the number of alternatives; the cells checked are added to the list. */
  method CheckPage<E(==)>(hits: Hits<E>, cut: Cuts, alts: nat, k: nat, before: seq<(nat, nat)>)
    returns (tried: nat, halted: bool, checked: seq<(nat, nat)>)
    ensures halted ==> checked == before + RowBefore(k, tried)
    ensures !halted && tried < alts ==> checked == before + RowBefore(k, tried + 1)
    ensures !halted && tried == alts ==> checked == before + RowBefore(k, alts)
    ensures tried <= alts && QuietRow(cut, k, tried) && EmptyRow(hits, k, tried)
    ensures halted <==> tried < alts && cut(k, tried)
    ensures !halted && tried < alts ==> FirstAlternative(hits, alts, k, 0) == Some(tried)
    ensures !halted && tried == alts ==> FirstAlternative(hits, alts, k, 0).None?
  {
    tried, halted, checked := 0, false, before;
    while tried < alts
      invariant tried <= alts && checked == before + RowBefore(k, tried) && QuietRow(cut, k, tried) && EmptyRow(hits, k, tried)
      invariant FirstAlternative(hits, alts, k, 0) == FirstAlternative(hits, alts, k, tried)
    {
      if cut(k, tried) {
        halted := true;
        return;
      }
      checked := checked + [(k, tried)];
      assert RowBefore(k, tried + 1) == RowBefore(k, tried) + [(k, tried)];
      if hits(k, tried) != [] {
        return;
      }
      tried := tried + 1;
    }
  }

  /** No alternative finds anything on the pages before `n`. */
  predicate NothingBefore<E(==)>(hits: Hits<E>, alts: nat, n: nat) {
    forall k, i :: 0 <= k < n && 0 <= i < alts ==> hits(k, i) == []
  }

  /** Page `k` is not stable, and `streak` counts the unchanged fingerprints. */
  predicate StreakIs<S(==)>(sig: Fingerprints<S>, k: nat, streak: int) {
    && !Stable(sig, k)
    && (streak == 0 || streak == 1) && (streak == 1 <==> k >= 1 && sig(k) == sig(k - 1))
  }

  /** Compares the fingerprints of page `k` and the next one. */
  method Compare<S(==)>(sig: Fingerprints<S>, k: nat, streak0: int) returns (stable: bool, streak: int)
    requires StreakIs(sig, k, streak0)
    ensures if stable then Stable(sig, k + 1) else StreakIs(sig, k + 1, streak)
  {
    streak := if sig(k + 1) != sig(k) then 0 else streak0 + 1;
    stable := streak >= 2;
  }

  lemma NotYetStable<S>(sig: Fingerprints<S>, budget: nat, k: nat)
    requires k <= Horizon(sig, 0, budget) && k < budget && !Stable(sig, k)
    ensures k < Horizon(sig, 0, budget)
  {
  }

  lemma StopsHere<S>(sig: Fingerprints<S>, budget: nat, k: nat)
    requires k <= Horizon(sig, 0, budget) && Stable(sig, k)
    ensures k == Horizon(sig, 0, budget)
  {
  }

  /** The pages before `n` are searched and left without an exception. */
  predicate QuietBefore(cut: Cuts, alts: nat, n: nat) {
    forall k, i :: 0 <= k < n && 0 <= i <= alts ==> !cut(k, i)
  }

  /** The search that would end on page `last` is cut short at (k, i): nothing was
      found and no exception raised before. */
  predicate CutAt<E(==)>(hits: Hits<E>, cut: Cuts, alts: nat, last: nat, k: nat, i: nat) {
    && cut(k, i) && k <= last && i <= alts && (i == alts ==> k < last)
    && NothingBefore(hits, alts, k) && EmptyRow(hits, k, i)
    && QuietBefore(cut, alts, k) && QuietRow(cut, k, i)
  }

  /** That happens at one place at most. */
  lemma CutOnce<E>(hits: Hits<E>, cut: Cuts, alts: nat, last: nat, k: nat, i: nat, m: nat, j: nat)
    requires CutAt(hits, cut, alts, last, k, i) && CutAt(hits, cut, alts, last, m, j)
    ensures k == m && i == j
  {
  }

  /** A search that finds something on page `k`, or ends there, is not cut short. */
  lemma NeverCut<E>(hits: Hits<E>, cut: Cuts, alts: nat, last: nat, k: nat)
    requires k <= last && QuietBefore(cut, alts, k)
    requires var r := FirstAlternative(hits, alts, k, 0);
             if r.Some? then QuietRow(cut, k, r.value + 1) else k == last && QuietRow(cut, k, alts)
    ensures forall m: nat, j: nat :: !CutAt(hits, cut, alts, last, m, j)
  {
    var r := FirstAlternative(hits, alts, k, 0);
    forall m: nat, j: nat
      ensures !CutAt(hits, cut, alts, last, m, j)
    {
      if r.Some? {
        assert hits(k, r.value) != [];
      }
    }
  }

  /** The search stopped where it is cut short, having checked the cells before. */
  ghost predicate CutShort<E>(hits: Hits<E>, cut: Cuts, alts: nat, last: nat, checked: seq<(nat, nat)>, swipes: nat) {
    exists i :: CutAt(hits, cut, alts, last, swipes, i) && checked == PagesBefore(alts, swipes) + RowBefore(swipes, i)
  }

  /** The search is not cut short and reached the page it ends on, having checked
      every cell up to the first match. */
  ghost predicate Finished<E>(hits: Hits<E>, cut: Cuts, alts: nat, last: nat, checked: seq<(nat, nat)>, swipes: nat) {
    && (forall k: nat, i: nat :: !CutAt(hits, cut, alts, last, k, i))
    && swipes <= last && NothingBefore(hits, alts, swipes)
    && match FirstAlternative(hits, alts, swipes, 0)
       case Some(i) => checked == CellsUpTo(alts, swipes, i)
       case None => checked == PagesBefore(alts, swipes + 1) && swipes == last
  }

  /** Its outcome: what the policy asks for of the first matches, or the error for none. */
  ghost predicate Completed<E(!new)>(hits: Hits<E>, cut: Cuts, alts: nat, selection: Selection, last: nat,
                                     o: Outcome<E>, checked: seq<(nat, nat)>, swipes: nat)
  {
    && Finished(hits, cut, alts, last, checked, swipes) && o == SearchPages(hits, alts, selection, 0, last)
    && match FirstAlternative(hits, alts, swipes, 0)
       case Some(i) => Chosen(hits(swipes, i), selection, o)
       case None => o == if swipes > 0 then ScrollLimitReached(swipes) else NotFound
  }

  lemma FinishedCompletes<E(!new)>(hits: Hits<E>, cut: Cuts, alts: nat, selection: Selection, last: nat,
                                   checked: seq<(nat, nat)>, swipes: nat)
    requires Finished(hits, cut, alts, last, checked, swipes)
    ensures var o := SearchPages(hits, alts, selection, 0, last);
            && Completed(hits, cut, alts, selection, last, o, checked, swipes) && !o.Interrupted?
            && o == match FirstAlternative(hits, alts, swipes, 0)
                    case Some(i) => Select(hits(swipes, i), selection)
                    case None => if swipes > 0 then ScrollLimitReached(swipes) else NotFound
  {
    SearchFrom(hits, alts, selection, 0, swipes, last);
    var r := FirstAlternative(hits, alts, swipes, 0);
    if r.Some? {
      ChosenIffSelected(hits(swipes, r.value), selection, Select(hits(swipes, r.value), selection));
    }
  }

  lemma NothingOnPage<E>(hits: Hits<E>, alts: nat, m: nat, k: nat)
    requires k < m && NothingBefore(hits, alts, m)
    ensures FirstAlternative(hits, alts, k, 0).None?
  {
  }

  /** Pages without a match are passed over. */
  lemma {:induction false} SearchFrom<E>(hits: Hits<E>, alts: nat, selection: Selection, k: nat, m: nat, last: nat)
    requires k <= m <= last && NothingBefore(hits, alts, m)
    ensures SearchPages(hits, alts, selection, k, last) == SearchPages(hits, alts, selection, m, last)
    decreases m - k
  {
    if k < m {
      NothingOnPage(hits, alts, m, k);
      SearchFrom(hits, alts, selection, k + 1, m, last);
    }
  }

  /** The pages before `k` held no match and raised no exception. */
  ghost predicate Searched<E>(hits: Hits<E>, cut: Cuts, alts: nat, k: nat) {
    NothingBefore(hits, alts, k) && QuietBefore(cut, alts, k)
  }

  lemma PageDone<E>(hits: Hits<E>, cut: Cuts, alts: nat, k: nat)
    requires Searched(hits, cut, alts, k)
    requires FirstAlternative(hits, alts, k, 0).None? && QuietRow(cut, k, alts) && !cut(k, alts)
    ensures Searched(hits, cut, alts, k + 1)
  {
  }

  lemma CutHere<E>(hits: Hits<E>, cut: Cuts, alts: nat, last: nat, k: nat, i: nat)
    requires k <= last && Searched(hits, cut, alts, k)
    requires cut(k, i) && i <= alts && (i == alts ==> k < last) && EmptyRow(hits, k, i) && QuietRow(cut, k, i)
    ensures CutShort(hits, cut, alts, last, PagesBefore(alts, k) + RowBefore(k, i), k)
  {
  }

  lemma FoundHere<E>(hits: Hits<E>, cut: Cuts, alts: nat, last: nat, k: nat, i: nat)
    requires k <= last && Searched(hits, cut, alts, k)
    requires FirstAlternative(hits, alts, k, 0) == Some(i) && QuietRow(cut, k, i + 1)
    ensures Finished(hits, cut, alts, last, CellsUpTo(alts, k, i), k)
  {
    NeverCut(hits, cut, alts, last, k);
  }

  lemma FoundNowhere<E>(hits: Hits<E>, cut: Cuts, alts: nat, last: nat)
    requires Searched(hits, cut, alts, last)
    requires FirstAlternative(hits, alts, last, 0).None? && QuietRow(cut, last, alts)
    ensures Finished(hits, cut, alts, last, PagesBefore(alts, last + 1), last)
  {
    NeverCut(hits, cut, alts, last, last);
  }

  /** The rounds of `resolve`: every alternative on one page after the other, until
      one finds something, the swipes are used up, the page is stable or an
      exception is raised. */
  method SearchRounds<E(==), S(==)>(hits: Hits<E>, sig: Fingerprints<S>, cut: Cuts, alts: nat,
                                    scroll: bool, maxSwipes: nat, immediate: bool)
    returns (halted: bool, hit: Option<nat>, checked: seq<(nat, nat)>, swipes: nat)
    ensures var last := Horizon(sig, 0, if scroll && !immediate then maxSwipes else 0);
            if halted then CutShort(hits, cut, alts, last, checked, swipes)
            else Finished(hits, cut, alts, last, checked, swipes) && hit == FirstAlternative(hits, alts, swipes, 0)
  {
    var enabled := scroll && maxSwipes > 0;
    var stable, streak := false, 0;
    ghost var budget := if scroll && !immediate then maxSwipes else 0;
    ghost var last := Horizon(sig, 0, budget);
    swipes, checked, hit := 0, [], None;
    while true
      invariant swipes <= last <= budget && hit.None?
      invariant checked == PagesBefore(alts, swipes) && Searched(hits, cut, alts, swipes)
      invariant if stable then swipes == last else StreakIs(sig, swipes, streak)
      decreases last - swipes
    {
      var tried;
      tried, halted, checked := CheckPage(hits, cut, alts, swipes, checked);
      if halted {
        CutHere(hits, cut, alts, last, swipes, tried);
        return;
      }
      if tried < alts {
        hit := Some(tried);
        FoundHere(hits, cut, alts, last, swipes, tried);
        return;
      }
      if immediate || !enabled || stable {
        break;
      }
      if swipes >= maxSwipes {
        stable := true;
        break;
      }
      NotYetStable(sig, budget, swipes);
      if cut(swipes, alts) {
        halted := true;
        CutHere(hits, cut, alts, last, swipes, alts);
        return;
      }
      PageDone(hits, cut, alts, swipes);
      stable, streak := Compare(sig, swipes, streak);
      swipes := swipes + 1;
      if stable {
        StopsHere(sig, budget, swipes);
      }
    }
    FoundNowhere(hits, cut, alts, last);
  }

  /** `resolve`. Returns also which cells were checked, in order, and how many swipes
      were made. It is interrupted exactly where it is cut short; otherwise it gives
      what the policy asks for of the first matches, or the error for none. */
  method Run<E(==, !new), S(==)>(hits: Hits<E>, sig: Fingerprints<S>, cut: Cuts, alts: nat, selection: Selection,
                                 scroll: bool, maxSwipes: nat, immediate: bool)
    returns (o: Outcome<E>, checked: seq<(nat, nat)>, swipes: nat)
    ensures var last := Horizon(sig, 0, if scroll && !immediate then maxSwipes else 0);
            if o.Interrupted? then CutShort(hits, cut, alts, last, checked, swipes)
            else Completed(hits, cut, alts, selection, last, o, checked, swipes)
  {
    var halted, hit;
    halted, hit, checked, swipes := SearchRounds(hits, sig, cut, alts, scroll, maxSwipes, immediate);
    if halted {
      return Interrupted, checked, swipes;
    }
    FinishedCompletes(hits, cut, alts, selection, Horizon(sig, 0, if scroll && !immediate then maxSwipes else 0), checked, swipes);
    o := if hit.Some? then Select(hits(swipes, hit.value), selection)
         else if swipes > 0 then ScrollLimitReached(swipes) else NotFound;
  }

  // ---------- what decides the search ----------

  /** The first page from `k` to `last` on which some alternative finds something. */
  ghost predicate FirstHitAt<E(!new)>(hits: Hits<E>, alts: nat, k: nat, i: nat) {
    i < alts && hits(k, i) != []
    && (forall j :: 0 <= j < i ==> hits(k, j) == [])
    && NothingBefore(hits, alts, k)
  }

  predicate Failed<E>(o: Outcome<E>) {
    o.ScrollLimitReached? || o.NotFound?
  }

  lemma {:induction false} FailsIff<E(!new)>(hits: Hits<E>, alts: nat, selection: Selection, k: nat, last: nat)
    requires k <= last && NothingBefore(hits, alts, k)
    ensures Failed(SearchPages(hits, alts, selection, k, last)) <==> NothingBefore(hits, alts, last + 1)
    decreases last - k
  {
    var r := FirstAlternative(hits, alts, k, 0);
    if r.Some? {
      assert hits(k, r.value) != [];
    } else if k < last {
      FailsIff(hits, alts, selection, k + 1, last);
    }
  }

  lemma {:induction false} FirstHitDecides<E(!new)>(hits: Hits<E>, alts: nat, selection: Selection, k: nat, last: nat, p: nat, i: nat)
    requires k <= p <= last && FirstHitAt(hits, alts, p, i)
    ensures SearchPages(hits, alts, selection, k, last) == Select(hits(p, i), selection)
    decreases last - k
  {
    if k < p {
      FirstHitDecides(hits, alts, selection, k + 1, last, p, i);
    }
  }

  /** The search is decided by the lexicographically first cell with a match. */
  lemma DecidedByFirstHit<E(!new)>(hits: Hits<E>, alts: nat, selection: Selection, k: nat, last: nat)
    requires k <= last && NothingBefore(hits, alts, k)
    ensures forall p: nat, i: nat :: p <= last && FirstHitAt(hits, alts, p, i) ==>
              Chosen(hits(p, i), selection, SearchPages(hits, alts, selection, k, last))
    ensures Failed(SearchPages(hits, alts, selection, k, last)) <==> NothingBefore(hits, alts, last + 1)
  {
    forall p: nat, i: nat | p <= last && FirstHitAt(hits, alts, p, i)
      ensures Chosen(hits(p, i), selection, SearchPages(hits, alts, selection, k, last))
    {
      assert k <= p;
      FirstHitDecides(hits, alts, selection, k, last, p, i);
      ChosenIffSelected(hits(p, i), selection, Select(hits(p, i), selection));
    }
    FailsIff(hits, alts, selection, k, last);
  }

  /** Equal outcomes, apart from how many swipes a failure reports. */
  predicate SameResult<E(==)>(a: Outcome<E>, b: Outcome<E>) {
    a == b || (a.ScrollLimitReached? && b.ScrollLimitReached?)
  }

  /** Stopping early gives the result of the full budget exactly when no match
      stands only on a page behind the stopping point. */
  lemma EarlyStopExact<E(!new)>(hits: Hits<E>, alts: nat, selection: Selection, stop: nat, budget: nat)
    requires 0 < stop <= budget
    ensures SameResult(SearchPages(hits, alts, selection, 0, stop), SearchPages(hits, alts, selection, 0, budget))
       <==> ((exists m, j :: 0 <= m <= stop && 0 <= j < alts && hits(m, j) != [])
             || (forall m, j :: stop < m <= budget && 0 <= j < alts ==> hits(m, j) == []))
  {
    FailsIff(hits, alts, selection, 0, stop);
    FailsIff(hits, alts, selection, 0, budget);
    LimitAfterScroll(hits, alts, selection, 0, stop);
    LimitAfterScroll(hits, alts, selection, 0, budget);
    if m, j :| 0 <= m <= stop && 0 <= j < alts && hits(m, j) != [] {
      var p, i := FirstHit(hits, alts, 0, m);
      FirstHitDecides(hits, alts, selection, 0, stop, p, i);
      FirstHitDecides(hits, alts, selection, 0, budget, p, i);
    } else if m, j :| stop < m <= budget && 0 <= j < alts && hits(m, j) != [] {
    }
  }

  lemma {:induction false} LimitAfterScroll<E(!new)>(hits: Hits<E>, alts: nat, selection: Selection, k: nat, last: nat)
    requires k <= last && last > 0
    ensures Failed(SearchPages(hits, alts, selection, k, last)) ==> SearchPages(hits, alts, selection, k, last) == ScrollLimitReached(last)
    decreases last - k
  {
    if k < last {
      LimitAfterScroll(hits, alts, selection, k + 1, last);
    }
  }

  lemma {:induction false} FirstHit<E(!new)>(hits: Hits<E>, alts: nat, k: nat, m: nat) returns (p: nat, i: nat)
    requires k <= m && exists j :: 0 <= j < alts && hits(m, j) != []
    requires forall q, j :: 0 <= q < k && 0 <= j < alts ==> hits(q, j) == []
    ensures p <= m && FirstHitAt(hits, alts, p, i)
    decreases m - k
  {
    match FirstAlternative(hits, alts, k, 0) {
      case Some(j) => p, i := k, j;
      case None => p, i := FirstHit(hits, alts, k + 1, m);
    }
  }

  // ---------- when stopping early is harmless ----------

  /** Swiping is deterministic and what is found and fingerprinted depends on the
      page alone, with different pages having different fingerprints. */
  ghost predicate Deterministic<P(!new), E(!new), S(!new)>(
    page: nat -> P, swipe: P -> P, find: (P, nat) -> seq<E>, mark: P -> S, hits: Hits<E>, sig: Fingerprints<S>)
  {
    && (forall k: nat :: page(k + 1) == swipe(page(k)))
    && (forall k: nat, i: nat :: hits(k, i) == find(page(k), i))
    && (forall k: nat :: sig(k) == mark(page(k)))
    && forall a, b :: mark(a) == mark(b) ==> a == b
  }

  /** Once a page repeats under a deterministic swipe it stays for ever. */
  lemma {:induction false} PageStays<P(!new), E(!new), S(!new)>(
    page: nat -> P, swipe: P -> P, find: (P, nat) -> seq<E>, mark: P -> S, hits: Hits<E>, sig: Fingerprints<S>, k: nat, m: nat)
    requires Deterministic(page, swipe, find, mark, hits, sig) && 0 < k <= m && sig(k) == sig(k - 1)
    ensures page(m) == page(k)
    decreases m - k
  {
    assert page(k - 1 + 1) == swipe(page(k - 1));
    if k < m {
      assert page(k + 1) == swipe(page(k));
      PageStays(page, swipe, find, mark, hits, sig, k + 1, m);
    }
  }

  /** With deterministic swiping, stopping after two unchanged fingerprints gives
      the same result as searching the full budget. */
  lemma EarlyStopHarmless<P(!new), E(!new), S(!new)>(
    page: nat -> P, swipe: P -> P, find: (P, nat) -> seq<E>, mark: P -> S, hits: Hits<E>, sig: Fingerprints<S>,
    alts: nat, selection: Selection, budget: nat)
    requires Deterministic(page, swipe, find, mark, hits, sig)
    ensures SameResult(SearchPages(hits, alts, selection, 0, Horizon(sig, 0, budget)), SearchPages(hits, alts, selection, 0, budget))
  {
    var h := Horizon(sig, 0, budget);
    if 0 < h < budget {
      forall m, j | h < m <= budget && 0 <= j < alts
        ensures hits(m, j) == hits(h, j)
      {
        PageStays(page, swipe, find, mark, hits, sig, h, m);
      }
      EarlyStopExact(hits, alts, selection, h, budget);
    }
  }

  /** Without determinism it can miss a match: two equal fingerprints, then the target. */
  lemma EarlyStopCanMiss() returns (hits: Hits<int>, sig: Fingerprints<int>)
    ensures !SameResult(SearchPages(hits, 1, Unique, 0, Horizon(sig, 0, 3)), SearchPages(hits, 1, Unique, 0, 3))
  {
    hits := (k: nat, i: nat) => if k == 3 then [7] else [];
    sig := (k: nat) => 0;
    assert Stable(sig, 2);
    EarlyStopExact(hits, 1, Unique, 2, 3);
    assert hits(3, 0) != [];
  }
}
