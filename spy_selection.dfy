/**
 * The winner rule of the scroll-spy hook (src/hooks/useScrollSpy.ts, lines 13-19):
 * a batch of intersection entries is filtered to the intersecting ones, sorted by
 * intersection ratio, largest first, with a stable sort, and the top entry's target
 * id becomes the active id when it is non-empty; otherwise the previous id is kept.
 */
module SpySelection {
  import opened Wrappers

  /**
   * One IntersectionObserver entry as the callback sees it. `ratio` is `None`
   * where the host reports a falsy ratio other than zero (NaN), which the
   * comparator's `|| 0` turns into 0.
   */
  datatype Entry = Entry(targetId: string, isIntersecting: bool, ratio: Option<real>)

  /** The sort key: `entry.intersectionRatio || 0`. */
  function Key(e: Entry): real {
    e.ratio.GetOr(0.0)
  }

  predicate HasIntersecting(entries: seq<Entry>) {
    exists i :: 0 <= i < |entries| && entries[i].isIntersecting
  }

  /** `entries.filter((entry) => entry.isIntersecting)`. */
  function Visible(entries: seq<Entry>): (r: seq<Entry>)
    ensures forall i :: 0 <= i < |r| ==> r[i].isIntersecting
    ensures forall e {:trigger e in r} :: e in r <==> e in entries && e.isIntersecting
    ensures r == [] <==> !HasIntersecting(entries)
  {
    if entries == [] then []
    else
      var rest := Visible(entries[1..]);
      if entries[0].isIntersecting then [entries[0]] + rest else rest
  }

  /** The sequence is ordered by key, largest first. */
  predicate SortedDesc(s: seq<Entry>) {
    forall i, j :: 0 <= i < j < |s| ==> Key(s[j]) <= Key(s[i])
  }

  /**
   * Inserts `x` into `t` in front of the first element whose key is not larger
   * than `x`'s, so that `x` precedes every later element of equal key.
   */
  function InsertDesc(x: Entry, t: seq<Entry>): seq<Entry> {
    if t == [] || Key(t[0]) <= Key(x) then [x] + t
    else [t[0]] + InsertDesc(x, t[1..])
  }

  /**
   * `Array.prototype.sort` with the comparator `(b.ratio || 0) - (a.ratio || 0)`:
   * a stable sort, descending by key (stable since ECMAScript 2019).
   */
  function SortDesc(s: seq<Entry>): seq<Entry> {
    if s == [] then [] else InsertDesc(s[0], SortDesc(s[1..]))
  }

  /** The entry the hook's callback looks at: `visible[0]`, if there is one. */
  function Top(entries: seq<Entry>): Option<Entry> {
    var visible := SortDesc(Visible(entries));
    if visible == [] then None else Some(visible[0])
  }

  /**
   * The active id after one batch: the top entry's target id when it is
   * truthy (non-empty), otherwise the previous active id.
   */
  function NextActive(prev: Option<string>, entries: seq<Entry>): Option<string> {
    match Top(entries)
    case Some(e) => if e.targetId != "" then Some(e.targetId) else prev
    case None => prev
  }

  /**
   * Index `k` is the intersecting entry a stable descending sort puts first:
   * its key is at least every intersecting entry's key, and strictly larger
   * than that of every intersecting entry before it.
   */
  predicate IsFirstMax(entries: seq<Entry>, k: int) {
    && 0 <= k < |entries|
    && entries[k].isIntersecting
    && (forall j :: 0 <= j < |entries| && entries[j].isIntersecting ==> Key(entries[j]) <= Key(entries[k]))
    && (forall j :: 0 <= j < k && entries[j].isIntersecting ==> Key(entries[j]) < Key(entries[k]))
  }

  // ---------------------------------------------------------------------------
  // The sort: a permutation, ordered, and led by the first maximal entry.
  // ---------------------------------------------------------------------------

  lemma InsertDescHead(x: Entry, t: seq<Entry>)
    ensures InsertDesc(x, t) != []
    ensures InsertDesc(x, t)[0] == if t == [] || Key(t[0]) <= Key(x) then x else t[0]
  {
  }

  lemma {:induction false} InsertDescLength(x: Entry, t: seq<Entry>)
    ensures |InsertDesc(x, t)| == |t| + 1
  {
    if t != [] && Key(x) < Key(t[0]) {
      InsertDescLength(x, t[1..]);
    }
  }

  lemma {:induction false} InsertDescMultiset(x: Entry, t: seq<Entry>)
    ensures multiset(InsertDesc(x, t)) == multiset(t) + multiset{x}
  {
    if t != [] && Key(x) < Key(t[0]) {
      InsertDescMultiset(x, t[1..]);
      assert t == [t[0]] + t[1..];
    }
  }

  /** Inserting an entry keeps every key under a common bound. */
  lemma {:induction false} InsertDescBounded(x: Entry, t: seq<Entry>, b: real)
    requires Key(x) <= b
    requires forall i :: 0 <= i < |t| ==> Key(t[i]) <= b
    ensures forall i :: 0 <= i < |InsertDesc(x, t)| ==> Key(InsertDesc(x, t)[i]) <= b
  {
    if t != [] && Key(x) < Key(t[0]) {
      InsertDescBounded(x, t[1..], b);
    }
  }

  lemma {:induction false} InsertDescSorted(x: Entry, t: seq<Entry>)
    requires SortedDesc(t)
    ensures SortedDesc(InsertDesc(x, t))
  {
    if t != [] && Key(x) < Key(t[0]) {
      var r := InsertDesc(x, t[1..]);
      InsertDescSorted(x, t[1..]);
      InsertDescBounded(x, t[1..], Key(t[0]));
      assert InsertDesc(x, t) == [t[0]] + r;
    }
  }

  lemma {:induction false} SortDescLength(s: seq<Entry>)
    ensures |SortDesc(s)| == |s|
  {
    if s != [] {
      SortDescLength(s[1..]);
      InsertDescLength(s[0], SortDesc(s[1..]));
    }
  }

  lemma {:induction false} SortDescMultiset(s: seq<Entry>)
    ensures multiset(SortDesc(s)) == multiset(s)
  {
    if s != [] {
      SortDescMultiset(s[1..]);
      InsertDescMultiset(s[0], SortDesc(s[1..]));
      assert s == [s[0]] + s[1..];
    }
  }

  lemma {:induction false} SortDescSorted(s: seq<Entry>)
    ensures SortedDesc(SortDesc(s))
  {
    if s != [] {
      SortDescSorted(s[1..]);
      InsertDescSorted(s[0], SortDesc(s[1..]));
    }
  }

  /** The sort reorders its input and leaves it ordered by key, largest first. */
  lemma SortDescIsSortedPermutation(s: seq<Entry>)
    ensures |SortDesc(s)| == |s|
    ensures multiset(SortDesc(s)) == multiset(s)
    ensures SortedDesc(SortDesc(s))
  {
    SortDescLength(s);
    SortDescMultiset(s);
    SortDescSorted(s);
  }

  /** The entries of `s` whose key is `v`, in the order of `s`. */
  function WithKey(s: seq<Entry>, v: real): seq<Entry> {
    if s == [] then []
    else (if Key(s[0]) == v then [s[0]] else []) + WithKey(s[1..], v)
  }

  lemma WithKeyCons(a: Entry, s: seq<Entry>, v: real)
    ensures WithKey([a] + s, v) == (if Key(a) == v then [a] else []) + WithKey(s, v)
  {
    assert ([a] + s)[0] == a && ([a] + s)[1..] == s;
  }

  /** Inserting `x` puts it in front of every entry of `t` that shares its key. */
  lemma {:induction false} InsertDescWithKey(x: Entry, t: seq<Entry>, v: real)
    ensures WithKey(InsertDesc(x, t), v) == (if Key(x) == v then [x] else []) + WithKey(t, v)
  {
    if t == [] || Key(t[0]) <= Key(x) {
      WithKeyCons(x, t, v);
    } else {
      var hx := if Key(x) == v then [x] else [];
      var ht := if Key(t[0]) == v then [t[0]] else [];
      assert hx == [] || ht == [];
      calc {
        WithKey(InsertDesc(x, t), v);
        WithKey([t[0]] + InsertDesc(x, t[1..]), v);
        { WithKeyCons(t[0], InsertDesc(x, t[1..]), v); }
        ht + WithKey(InsertDesc(x, t[1..]), v);
        { InsertDescWithKey(x, t[1..], v); }
        ht + (hx + WithKey(t[1..], v));
        hx + (ht + WithKey(t[1..], v));
        { WithKeyCons(t[0], t[1..], v); assert [t[0]] + t[1..] == t; }
        hx + WithKey(t, v);
      }
    }
  }

  /**
   * The sort is stable: for every key, the entries with that key appear in the
   * sorted sequence in the same order as in the input.
   */
  lemma {:induction false} SortDescStable(s: seq<Entry>, v: real)
    ensures WithKey(SortDesc(s), v) == WithKey(s, v)
  {
    if s != [] {
      SortDescStable(s[1..], v);
      InsertDescWithKey(s[0], SortDesc(s[1..]), v);
    }
  }

  /** How the top entry of a batch relates to the top entry of the batch without its first entry. */
  lemma TopCons(entries: seq<Entry>)
    requires entries != []
    ensures var e, t := entries[0], Top(entries[1..]);
      Top(entries) == if !e.isIntersecting then t
                      else if t.None? || Key(t.value) <= Key(e) then Some(e)
                      else t
  {
    var e, rest := entries[0], entries[1..];
    assert Visible(entries) == if e.isIntersecting then [e] + Visible(rest) else Visible(rest);
    if e.isIntersecting {
      assert ([e] + Visible(rest))[1..] == Visible(rest);
      SortDescLength(Visible(rest));
      InsertDescHead(e, SortDesc(Visible(rest)));
    }
  }

  /** The first entry is the first maximal one when it intersects and nothing later beats it. */
  lemma FirstMaxAtHead(entries: seq<Entry>)
    requires entries != [] && entries[0].isIntersecting
    requires forall j :: 0 <= j < |entries| - 1 && entries[1..][j].isIntersecting ==> Key(entries[1..][j]) <= Key(entries[0])
    ensures IsFirstMax(entries, 0)
  {
    forall j | 0 < j < |entries| && entries[j].isIntersecting ensures Key(entries[j]) <= Key(entries[0]) {
      assert entries[j] == entries[1..][j - 1];
    }
  }

  /** The first maximal entry of the tail stays first maximal when the head does not beat or tie it. */
  lemma FirstMaxShift(entries: seq<Entry>, k: int)
    requires entries != [] && IsFirstMax(entries[1..], k)
    requires entries[0].isIntersecting ==> Key(entries[0]) < Key(entries[1..][k])
    ensures IsFirstMax(entries, k + 1)
  {
    var rest := entries[1..];
    forall j | 0 < j < |entries| ensures entries[j] == rest[j - 1] { }
  }

  /** The head of the sorted visible entries is the first maximal intersecting entry. */
  lemma {:induction false} TopIsFirstMax(entries: seq<Entry>) returns (k: nat)
    requires HasIntersecting(entries)
    ensures IsFirstMax(entries, k)
    ensures Top(entries) == Some(entries[k])
  {
    var e, rest := entries[0], entries[1..];
    TopCons(entries);
    if !HasIntersecting(rest) {
      assert e.isIntersecting by {
        var i :| 0 <= i < |entries| && entries[i].isIntersecting;
        if i > 0 { assert rest[i - 1].isIntersecting; }
      }
      assert Visible(rest) == [];
      FirstMaxAtHead(entries);
      k := 0;
    } else {
      var k' := TopIsFirstMax(rest);
      if e.isIntersecting && Key(rest[k']) <= Key(e) {
        FirstMaxAtHead(entries);
        k := 0;
      } else {
        FirstMaxShift(entries, k');
        k := k' + 1;
      }
    }
  }

  /** Exactly one index of a batch is the first maximal intersecting entry. */
  lemma FirstMaxIsUnique(entries: seq<Entry>, k1: int, k2: int)
    requires IsFirstMax(entries, k1) && IsFirstMax(entries, k2)
    ensures k1 == k2
  {
  }

  // ---------------------------------------------------------------------------
  // The update rule.
  // ---------------------------------------------------------------------------

  /** No intersecting entry in the batch: the previous active id is kept (no flicker). */
  lemma NoIntersectingKeepsActive(prev: Option<string>, entries: seq<Entry>)
    requires !HasIntersecting(entries)
    ensures NextActive(prev, entries) == prev
  {
  }

  /**
   * At least one intersecting entry: the first maximal one decides; its id is
   * adopted when non-empty, and otherwise the previous id is kept.
   */
  lemma {:induction false} NextActiveAdoptsFirstMax(prev: Option<string>, entries: seq<Entry>, k: int)
    requires IsFirstMax(entries, k)
    ensures NextActive(prev, entries) == if entries[k].targetId != "" then Some(entries[k].targetId) else prev
  {
    var k' := TopIsFirstMax(entries);
    FirstMaxIsUnique(entries, k, k');
  }

  /**
   * The rule in full, in terms of `IsFirstMax`: the new active id is
   * either the previous one, or the non-empty id of an intersecting entry whose
   * ratio no intersecting entry exceeds and that no earlier entry ties.
   */
  lemma {:induction false} NextActiveCharacterized(prev: Option<string>, entries: seq<Entry>)
    ensures NextActive(prev, entries) != prev ==>
      exists k :: IsFirstMax(entries, k) && entries[k].targetId != "" && NextActive(prev, entries) == Some(entries[k].targetId)
    ensures (exists k :: IsFirstMax(entries, k) && entries[k].targetId != "") ==>
      NextActive(prev, entries).Some? && NextActive(prev, entries).value != ""
  {
    if HasIntersecting(entries) {
      var k := TopIsFirstMax(entries);
      NextActiveAdoptsFirstMax(prev, entries, k);
      forall k2 | IsFirstMax(entries, k2) ensures k2 == k { FirstMaxIsUnique(entries, k, k2); }
    }
  }

  /** The filter keeps batch order: filtering a concatenation concatenates the filtered parts. */
  lemma {:induction false} VisibleAppend(a: seq<Entry>, b: seq<Entry>)
    ensures Visible(a + b) == Visible(a) + Visible(b)
  {
    if a == [] {
      assert a + b == b;
    } else {
      var head := if a[0].isIntersecting then [a[0]] else [];
      assert (a + b)[0] == a[0];
      assert (a + b)[1..] == a[1..] + b;
      calc {
        Visible(a + b);
        head + Visible(a[1..] + b);
        { VisibleAppend(a[1..], b); }
        head + (Visible(a[1..]) + Visible(b));
        (head + Visible(a[1..])) + Visible(b);
        Visible(a) + Visible(b);
      }
    }
  }

  lemma {:induction false} VisibleSkipsNonIntersecting(entries: seq<Entry>, e: Entry, i: nat)
    requires !e.isIntersecting && i <= |entries|
    ensures Visible(entries[..i] + [e] + entries[i..]) == Visible(entries)
  {
    var p, q := entries[..i], entries[i..];
    assert [e][1..] == [];
    assert Visible([e]) == [];
    VisibleAppend(p, [e]);
    assert Visible(p + [e]) == Visible(p);
    VisibleAppend(p + [e], q);
    VisibleAppend(p, q);
    assert p + q == entries;
  }

  /** A non-intersecting entry, whatever its ratio and wherever it stands, changes nothing. */
  lemma NonIntersectingIgnored(prev: Option<string>, entries: seq<Entry>, e: Entry, i: nat)
    requires !e.isIntersecting && i <= |entries|
    ensures NextActive(prev, entries[..i] + [e] + entries[i..]) == NextActive(prev, entries)
  {
    VisibleSkipsNonIntersecting(entries, e, i);
  }

  /**
   * A batch cannot introduce an id it does not carry: the new active id is the
   * previous one or the target id of an intersecting entry of the batch.
   */
  lemma NextActiveFromBatch(prev: Option<string>, entries: seq<Entry>)
    ensures NextActive(prev, entries) == prev ||
      exists i :: 0 <= i < |entries| && entries[i].isIntersecting && NextActive(prev, entries) == Some(entries[i].targetId)
  {
    if HasIntersecting(entries) {
      var k := TopIsFirstMax(entries);
    }
  }

  /** Equal ratios: the earlier of two tied intersecting entries wins. */
  lemma TieGoesToEarlier(prev: Option<string>, a: Entry, b: Entry)
    requires a.isIntersecting && b.isIntersecting && Key(a) == Key(b) && a.targetId != ""
    ensures NextActive(prev, [a, b]) == Some(a.targetId)
  {
    NextActiveAdoptsFirstMax(prev, [a, b], 0);
  }
}
