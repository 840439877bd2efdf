/**
 * The duplicate-invoice pruning of scripts/remove-duplicates.ts: the invoices
 * are grouped by invoice number, and in every group of more than one the
 * newest invoice is kept and the identifiers of the others are handed to
 * `deleteMany`. The collection is a sequence of records read in order; the
 * deletion is the removal of every record whose identifier was handed over.
 */
module Dedup {
  import opened Common

  /** The fields of an invoice the script reads: the optional `_id`, the
      invoice number and the creation time in milliseconds. */
  datatype Record = Record(id: Option<nat>, invoiceNumber: string, createdAt: int)

  /** The records of `s` satisfying `p`, in their order. */
  function Keep(s: seq<Record>, p: Record -> bool): (r: seq<Record>)
    ensures |r| <= |s|
    ensures forall x | x in r :: x in s && p(x)
    ensures forall x | x in s && p(x) :: x in r
  {
    if |s| == 0 then [] else (if p(s[0]) then [s[0]] else []) + Keep(s[1..], p)
  }

  /** `groupedInvoices[key]` once the `reduce` has run: the invoices of one
      number in the order they were read. */
  function Group(rs: seq<Record>, key: string): (g: seq<Record>)
    ensures forall x | x in g :: x in rs && x.invoiceNumber == key
    ensures forall x | x in rs && x.invoiceNumber == key :: x in g
    ensures DistinctIds(rs) ==> DistinctIds(g)
  {
    var p := (x: Record) => x.invoiceNumber == key;
    KeepDistinct(rs, p);
    Keep(rs, p)
  }

  /** The keys of the grouping in the order they were first met. */
  function Keys(rs: seq<Record>): (ks: seq<string>)
    ensures forall i, j | 0 <= i < j < |ks| :: ks[i] != ks[j]
    ensures forall x | x in rs :: x.invoiceNumber in ks
    ensures forall k | k in ks :: exists x | x in rs :: x.invoiceNumber == k
  {
    if |rs| == 0 then []
    else
      var ks := Keys(rs[..|rs| - 1]);
      var last := rs[|rs| - 1];
      assert forall x | x in rs :: x in rs[..|rs| - 1] || x == last;
      if last.invoiceNumber in ks then ks else ks + [last.invoiceNumber]
  }

  /** One entry of `Object.entries(groupedInvoices)`. */
  datatype Entry = Entry(invoiceNumber: string, group: seq<Record>)

  function GroupsOf(rs: seq<Record>, keys: seq<string>): (es: seq<Entry>)
    ensures forall e | e in es :: e.group == Group(rs, e.invoiceNumber) && |e.group| > 1 && e.invoiceNumber in keys
    ensures forall k | k in keys && |Group(rs, k)| > 1 :: Entry(k, Group(rs, k)) in es
  {
    if |keys| == 0 then []
    else
      var g := Group(rs, keys[0]);
      (if |g| > 1 then [Entry(keys[0], g)] else []) + GroupsOf(rs, keys[1..])
  }

  /** The groups filtered to those with more than one invoice (lines 38-39). */
  function DuplicateGroups(rs: seq<Record>): (es: seq<Entry>)
    ensures forall e | e in es :: e.group == Group(rs, e.invoiceNumber) && |e.group| > 1
    ensures forall x | x in rs && |Group(rs, x.invoiceNumber)| > 1 :: Entry(x.invoiceNumber, Group(rs, x.invoiceNumber)) in es
  {
    GroupsOf(rs, Keys(rs))
  }

  /** The position a stable sort by `b.createdAt - a.createdAt` moves to the
      front: the first of the newest records. */
  function NewestIndex(g: seq<Record>): (k: nat)
    requires |g| > 0
    ensures k < |g|
    ensures forall j | 0 <= j < |g| :: g[j].createdAt <= g[k].createdAt
    ensures forall j | 0 <= j < k :: g[j].createdAt < g[k].createdAt
  {
    if |g| == 1 then 0
    else
      var k := NewestIndex(g[..|g| - 1]);
      if g[|g| - 1].createdAt > g[k].createdAt then |g| - 1 else k
  }

  /** `const [latest, ...duplicates] = sorted`. */
  datatype Split = Split(latest: Record, duplicates: seq<Record>)

  /** The sort and the destructuring of lines 48-53. Only the records of
      `duplicates` matter, not their order: they only feed `$in`. */
  function Prune(g: seq<Record>): (s: Split)
    requires |g| > 0
    ensures s.latest in g
    ensures forall x | x in g :: x.createdAt <= s.latest.createdAt
    ensures multiset(s.duplicates) + multiset{s.latest} == multiset(g)
    ensures forall x | x in s.duplicates :: x in g
    ensures |s.duplicates| == |g| - 1
  {
    var k := NewestIndex(g);
    assert g == g[..k] + [g[k]] + g[k + 1..];
    Split(g[k], g[..k] + g[k + 1..])
  }

  /** `duplicates.map(d => d._id).filter(id => id !== undefined)`. */
  function DefinedIds(ds: seq<Record>): (ids: seq<nat>)
    ensures |ids| <= |ds|
    ensures forall x | x in ids :: exists d | d in ds :: d.id == Some(x)
    ensures forall d | d in ds && d.id.Some? :: d.id.value in ids
    ensures (forall d | d in ds :: d.id.Some?) ==> |ids| == |ds|
  {
    if |ds| == 0 then []
    else (if ds[0].id.Some? then [ds[0].id.value] else []) + DefinedIds(ds[1..])
  }

  /** The identifiers one group hands to `deleteMany`. */
  function Doomed(e: Entry): (ids: seq<nat>)
    requires |e.group| > 0
    ensures |ids| <= |e.group| - 1
    ensures forall x | x in ids :: exists d | d in Prune(e.group).duplicates :: d.id == Some(x)
    ensures (forall d | d in e.group :: d.id.Some?) ==> |ids| == |e.group| - 1
  {
    DefinedIds(Prune(e.group).duplicates)
  }

  function DoomedAll(es: seq<Entry>): (ids: seq<nat>)
    requires forall e | e in es :: |e.group| > 0
    ensures forall x | x in ids :: exists e | e in es :: x in Doomed(e)
    ensures forall e, x | e in es && x in Doomed(e) :: x in ids
  {
    if |es| == 0 then [] else Doomed(es[0]) + DoomedAll(es[1..])
  }

  /** Every identifier the loop of lines 44-64 hands to `deleteMany`. */
  function DeletedIds(rs: seq<Record>): (ids: seq<nat>)
    ensures forall x | x in ids :: exists d | d in rs :: d.id == Some(x)
  {
    HandedOverFromCollection(rs);
    DoomedAll(DuplicateGroups(rs))
  }

  lemma HandedOverFromCollection(rs: seq<Record>)
    ensures forall x | x in DoomedAll(DuplicateGroups(rs)) :: exists d | d in rs :: d.id == Some(x)
  {
    var es := DuplicateGroups(rs);
    forall x | x in DoomedAll(es)
      ensures exists d | d in rs :: d.id == Some(x)
    {
      var e :| e in es && x in Doomed(e);
      var d :| d in Prune(e.group).duplicates && d.id == Some(x);
      assert d in Group(rs, e.invoiceNumber);
    }
  }

  /** The collection once every `deleteMany` has run. */
  function Remaining(rs: seq<Record>): (r: seq<Record>)
    ensures forall x | x in r :: x in rs && (x.id.None? || x.id.value !in DeletedIds(rs))
    ensures forall x | x in rs && (x.id.None? || x.id.value !in DeletedIds(rs)) :: x in r
    ensures DistinctIds(rs) ==> DistinctIds(r)
  {
    var deleted := DeletedIds(rs);
    var p := (x: Record) => x.id.None? || x.id.value !in deleted;
    KeepDistinct(rs, p);
    Keep(rs, p)
  }

  // ---------------------------------------------------------------------------
  // Identifiers

  /** `_id` is the collection's primary key: no two documents share one. */
  predicate DistinctIds(rs: seq<Record>) {
    forall i, j | 0 <= i < |rs| && 0 <= j < |rs| && i != j && rs[i].id.Some? :: rs[i].id != rs[j].id
  }

  lemma SameIdSameRecord(rs: seq<Record>, a: Record, b: Record)
    requires DistinctIds(rs) && a in rs && b in rs && a.id.Some? && a.id == b.id
    ensures a == b
  {
    var i :| 0 <= i < |rs| && rs[i] == a;
    var j :| 0 <= j < |rs| && rs[j] == b;
  }

  lemma {:induction false} KeepDistinct(s: seq<Record>, p: Record -> bool)
    ensures DistinctIds(s) ==> DistinctIds(Keep(s, p))
  {
    if DistinctIds(s) && |s| > 0 {
      var t := s[1..];
      DistinctTail(s);
      KeepDistinct(t, p);
      var kt := Keep(t, p);
      if p(s[0]) {
        forall x | x in kt && s[0].id.Some?
          ensures x.id != s[0].id
        {
          var j :| 0 <= j < |t| && t[j] == x;
          assert x == s[j + 1];
        }
        DistinctCons(s[0], kt);
      }
    }
  }

  lemma DistinctTail(s: seq<Record>)
    requires |s| > 0 && DistinctIds(s)
    ensures DistinctIds(s[1..])
  {
    var t := s[1..];
    forall i, j | 0 <= i < |t| && 0 <= j < |t| && i != j && t[i].id.Some?
      ensures t[i].id != t[j].id
    {
      assert t[i] == s[i + 1] && t[j] == s[j + 1];
    }
  }

  /** A record whose identifier, if any, is not among those of a list with
      distinct identifiers can be put in front of it. */
  lemma DistinctCons(x: Record, t: seq<Record>)
    requires DistinctIds(t)
    requires x.id.Some? ==> forall y | y in t :: y.id != x.id
    ensures DistinctIds([x] + t)
  {
    var r := [x] + t;
    forall i, j | 0 <= i < |r| && 0 <= j < |r| && i != j && r[i].id.Some?
      ensures r[i].id != r[j].id
    {
      if i > 0 && j > 0 {
        assert r[i] == t[i - 1] && r[j] == t[j - 1];
      } else if i == 0 {
        assert r[j] in t;
      } else {
        assert r[i] in t;
      }
    }
  }

  /** A group with distinct identifiers: the kept record's identifier is not
      among those of its duplicates. */
  lemma LatestNotDoomed(g: seq<Record>)
    requires |g| > 0 && DistinctIds(g) && Prune(g).latest.id.Some?
    ensures Prune(g).latest.id.value !in DefinedIds(Prune(g).duplicates)
  {
    var k := NewestIndex(g);
    var ds := g[..k] + g[k + 1..];
    forall d | d in ds
      ensures d.id != g[k].id
    {
      var j :| 0 <= j < |ds| && ds[j] == d;
      if j < k {
        assert d == g[j];
      } else {
        assert d == g[j + 1];
      }
    }
  }

  // ---------------------------------------------------------------------------
  // What the run deletes and keeps

  /** An identifier is deleted only if it belongs to a record of a group of
      more than one other than the kept one. */
  lemma DeletedSource(rs: seq<Record>, x: nat) returns (e: Entry, d: Record)
    requires x in DeletedIds(rs)
    ensures e in DuplicateGroups(rs) && d in Prune(e.group).duplicates
    ensures d.id == Some(x) && d in rs && d.invoiceNumber == e.invoiceNumber
  {
    e :| e in DuplicateGroups(rs) && x in Doomed(e);
    d :| d in Prune(e.group).duplicates && d.id == Some(x);
  }

  /** An invoice whose number no other invoice carries is never deleted. */
  lemma UniqueNeverDeleted(rs: seq<Record>, r: Record)
    requires DistinctIds(rs) && r in rs && |Group(rs, r.invoiceNumber)| <= 1
    ensures r in Remaining(rs)
  {
    if r.id.Some? && r.id.value in DeletedIds(rs) {
      var e, d := DeletedSource(rs, r.id.value);
      SameIdSameRecord(rs, r, d);
      assert false;
    }
  }

  /** The kept record of a group of duplicates survives the run. */
  lemma LatestSurvives(rs: seq<Record>, key: string)
    requires DistinctIds(rs) && |Group(rs, key)| > 1
    ensures Prune(Group(rs, key)).latest in Remaining(rs)
  {
    var g := Group(rs, key);
    var l := Prune(g).latest;
    if l.id.Some? && l.id.value in DeletedIds(rs) {
      var e, d := DeletedSource(rs, l.id.value);
      SameIdSameRecord(rs, l, d);
      LatestNotDoomed(g);
      assert false;
    }
  }

  /** The kept invoice carries the group's number and is the newest of it. */
  lemma KeptIsNewest(rs: seq<Record>, key: string)
    requires |Group(rs, key)| > 1
    ensures var l := Prune(Group(rs, key)).latest;
      && l in rs && l.invoiceNumber == key
      && (forall x | x in rs && x.invoiceNumber == key :: x.createdAt <= l.createdAt)
  {
  }

  /** With every identifier defined, a group of n invoices loses n - 1. */
  lemma DeletionCount(rs: seq<Record>, e: Entry)
    requires e in DuplicateGroups(rs)
    requires forall x | x in rs :: x.id.Some?
    ensures |Doomed(e)| == |e.group| - 1
  {
  }

  /** Every invoice number present before the run is present after it, and no
      other. */
  lemma NumbersPreserved(rs: seq<Record>)
    requires DistinctIds(rs)
    ensures forall x | x in rs :: exists y | y in Remaining(rs) :: y.invoiceNumber == x.invoiceNumber
    ensures forall y | y in Remaining(rs) :: exists x | x in rs :: y.invoiceNumber == x.invoiceNumber
  {
    forall x | x in rs
      ensures exists y | y in Remaining(rs) :: y.invoiceNumber == x.invoiceNumber
    {
      if |Group(rs, x.invoiceNumber)| <= 1 {
        UniqueNeverDeleted(rs, x);
      } else {
        LatestSurvives(rs, x.invoiceNumber);
      }
    }
  }

  /** A record of a duplicate group other than the kept one, with an
      identifier, is deleted. */
  lemma OthersDeleted(rs: seq<Record>, key: string, y: Record)
    requires |Group(rs, key)| > 1
    requires y in Group(rs, key) && y.id.Some? && y != Prune(Group(rs, key)).latest
    ensures y !in Remaining(rs)
  {
    var g := Group(rs, key);
    var e := Entry(key, g);
    assert y in rs && y.invoiceNumber == key;
    assert e in DuplicateGroups(rs);
    assert y in multiset(Prune(g).duplicates) by {
      assert y in multiset(g);
    }
    assert y.id.value in Doomed(e);
    assert y.id.value in DeletedIds(rs);
  }

  lemma FirstTwo(s: seq<Record>)
    requires |s| >= 2
    ensures s[0] in s && s[1] in s
  {
  }

  lemma AtMostOne(s: seq<Record>, w: Record)
    requires DistinctIds(s) && w.id.Some? && forall y | y in s :: y == w
    ensures |s| <= 1
  {
    if |s| >= 2 {
      FirstTwo(s);
      assert false;
    }
  }

  lemma OneElement(g: seq<Record>, a: Record, b: Record)
    requires |g| <= 1 && a in g && b in g
    ensures a == b
  {
    assert a == g[0] && b == g[0];
  }

  /** A number carried by one record only: that record survives alone. */
  lemma LoneSurvivor(rs: seq<Record>, w: Record)
    requires DistinctIds(rs) && w in rs && |Group(rs, w.invoiceNumber)| <= 1
    ensures w in Remaining(rs)
    ensures forall y | y in Remaining(rs) && y.invoiceNumber == w.invoiceNumber :: y == w
  {
    UniqueNeverDeleted(rs, w);
    var g := Group(rs, w.invoiceNumber);
    forall y | y in Remaining(rs) && y.invoiceNumber == w.invoiceNumber
      ensures y == w
    {
      assert y in g && w in g;
      OneElement(g, y, w);
    }
  }

  /** In a group of duplicates whose records all have identifiers, the kept
      record survives alone. */
  lemma KeptSurvivor(rs: seq<Record>, key: string)
    requires DistinctIds(rs) && (forall x | x in rs :: x.id.Some?) && |Group(rs, key)| > 1
    ensures Prune(Group(rs, key)).latest in Remaining(rs)
    ensures forall y | y in Remaining(rs) && y.invoiceNumber == key :: y == Prune(Group(rs, key)).latest
  {
    LatestSurvives(rs, key);
    var w := Prune(Group(rs, key)).latest;
    forall y | y in Remaining(rs) && y.invoiceNumber == key
      ensures y == w
    {
      if y != w {
        OthersDeleted(rs, key, y);
      }
    }
  }

  /** The one record of `key` that survives when every record has an
      identifier. */
  lemma Survivor(rs: seq<Record>, key: string) returns (w: Record)
    requires DistinctIds(rs) && (forall x | x in rs :: x.id.Some?)
    requires exists x | x in rs :: x.invoiceNumber == key
    ensures w in Remaining(rs) && w.invoiceNumber == key && w.id.Some?
    ensures forall y | y in Remaining(rs) && y.invoiceNumber == key :: y == w
  {
    if |Group(rs, key)| <= 1 {
      w :| w in rs && w.invoiceNumber == key;
      LoneSurvivor(rs, w);
    } else {
      KeptSurvivor(rs, key);
      w := Prune(Group(rs, key)).latest;
    }
  }

  /** When every invoice has an identifier, exactly one invoice of each number
      is left. */
  lemma OnePerNumber(rs: seq<Record>, key: string)
    requires DistinctIds(rs) && (forall x | x in rs :: x.id.Some?)
    requires exists x | x in rs :: x.invoiceNumber == key
    ensures |Group(Remaining(rs), key)| == 1
  {
    var w := Survivor(rs, key);
    var left := Group(Remaining(rs), key);
    assert w in left;
    AtMostOne(left, w);
  }

  // ---------------------------------------------------------------------------
  // Two copies of one invoice

  /** Of two copies, the older one is deleted. */
  lemma NewerCopyKept(a: Record, b: Record)
    requires a.invoiceNumber == b.invoiceNumber && a.createdAt < b.createdAt
    requires a.id.Some? && b.id.Some? && a.id != b.id
    ensures Remaining([a, b]) == [b]
  {
    TwoCopies(a, b);
  }

  /** Of two copies created at the same time, the one read first is kept: the
      sort is stable. */
  lemma TieKeepsFirst(a: Record, b: Record)
    requires a.invoiceNumber == b.invoiceNumber && a.createdAt == b.createdAt
    requires a.id.Some? && b.id.Some? && a.id != b.id
    ensures Remaining([a, b]) == [a]
  {
    TwoCopies(a, b);
  }

  lemma TwoCopies(a: Record, b: Record)
    requires a.invoiceNumber == b.invoiceNumber && a.id.Some? && b.id.Some? && a.id != b.id
    ensures var l := if a.createdAt < b.createdAt then b else a;
      Remaining([a, b]) == [l]
  {
    var rs := [a, b];
    var k := if a.createdAt < b.createdAt then 1 else 0;
    var l := rs[k];
    var other := rs[1 - k];
    TwoCopiesDeleted(a, b);
    assert DeletedIds(rs) == [other.id.value];
    KeepTwo(rs, (x: Record) => x.id.None? || x.id.value !in DeletedIds(rs));
  }

  /** What is handed to `deleteMany` for two copies. */
  lemma TwoCopiesDeleted(a: Record, b: Record)
    requires a.invoiceNumber == b.invoiceNumber
    ensures var other := if a.createdAt < b.createdAt then a else b;
      DeletedIds([a, b]) == DefinedIds([other])
  {
    var e := Entry(a.invoiceNumber, [a, b]);
    TwoCopiesEntry(a, b);
    assert DoomedAll([e]) == Doomed(e) by {
      assert [e][1..] == [];
    }
    TwoCopiesPrune(a, b);
  }

  /** Two copies of one number form a single duplicate group. */
  lemma TwoCopiesEntry(a: Record, b: Record)
    requires a.invoiceNumber == b.invoiceNumber
    ensures DuplicateGroups([a, b]) == [Entry(a.invoiceNumber, [a, b])]
  {
    var rs := [a, b];
    var key := a.invoiceNumber;
    assert Group(rs, key) == rs by {
      KeepTwo(rs, (x: Record) => x.invoiceNumber == key);
    }
    assert Keys(rs) == [key] by {
      assert [a][..0] == [];
      assert Keys([a]) == [key];
      assert rs[..1] == [a];
    }
    assert GroupsOf(rs, [key]) == [Entry(key, rs)] by {
      assert [key][1..] == [];
      assert GroupsOf(rs, []) == [];
    }
  }

  /** Of two copies the older one, or the second on a tie, is the duplicate. */
  lemma TwoCopiesPrune(a: Record, b: Record)
    ensures Prune([a, b]).duplicates == [if a.createdAt < b.createdAt then a else b]
  {
    var rs := [a, b];
    assert rs[..|rs| - 1] == [a];
    if a.createdAt < b.createdAt {
      assert NewestIndex(rs) == 1;
      assert rs[..1] + rs[2..] == [a];
    } else {
      assert NewestIndex(rs) == 0;
      assert rs[..0] + rs[1..] == [b];
    }
  }

  lemma KeepTwo(rs: seq<Record>, p: Record -> bool)
    requires |rs| == 2
    ensures Keep(rs, p) == (if p(rs[0]) then [rs[0]] else []) + (if p(rs[1]) then [rs[1]] else [])
  {
    assert rs[1..][1..] == [];
  }
}
