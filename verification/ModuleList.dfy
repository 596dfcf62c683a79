/** The list of opened modules with their reference counts, and shutting it down. */
module ModuleList {
  import opened Optional

  /** A file name, or none for the program itself. */
  type Name = Option<string>

  class Handle {
    var filename: Name
    var refCount: int
    var resident: bool
    var next: Handle?

    constructor (f: Name, r: bool)
      ensures filename == f && refCount == 0 && resident == r && next == null
    {
      filename, refCount, resident, next := f, 0, r, null;
    }

    ghost function Info(): Entry
      reads this`filename, this`refCount, this`resident
    {
      Entry(filename, refCount, resident)
    }
  }

  // ----- counting -----

  /** What a handle says about its module. */
  datatype Entry = Entry(name: Name, refs: int, resident: bool)

  /** A call that succeeded. */
  datatype Event = Opened(name: Name) | Closed(name: Name)

  /** Opens minus closes. */
  function Balance(log: seq<Event>, f: Name): int {
    if log == [] then 0
    else
      var e := log[|log| - 1];
      Balance(log[..|log| - 1], f) + if e.name != f then 0 else if e.Opened? then 1 else -1
  }

  lemma BalanceStep(log: seq<Event>, e: Event, f: Name)
    ensures Balance(log + [e], f) == Balance(log, f) + if e.name != f then 0 else if e.Opened? then 1 else -1
  {
    assert (log + [e])[..|log|] == log;
  }

  lemma BalanceStepAll(log: seq<Event>, e: Event)
    ensures forall f :: Balance(log + [e], f)
                      == Balance(log, f) + if e.name != f then 0 else if e.Opened? then 1 else -1
  {
    forall f ensures Balance(log + [e], f) == Balance(log, f) + if e.name != f then 0 else if e.Opened? then 1 else -1 {
      BalanceStep(log, e, f);
    }
  }

  ghost predicate Lists(es: seq<Entry>, f: Name) {
    exists i :: 0 <= i < |es| && es[i].name == f
  }

  /** File names are distinct, and every reference count is what the calls make it;
      only that of a resident module can be less than one. */
  ghost predicate Counted(es: seq<Entry>, log: seq<Event>) {
    && (forall i, j :: 0 <= i < j < |es| ==> es[i].name != es[j].name)
    && (forall i :: 0 <= i < |es| ==> es[i].refs == Balance(log, es[i].name))
    && (forall i :: 0 <= i < |es| && !es[i].resident ==> es[i].refs >= 1)
    && (forall f :: !Lists(es, f) ==> Balance(log, f) == 0)
  }

  /** An entry's reference count, changed. */
  function Changed(es: seq<Entry>, k: int, d: int): seq<Entry>
    requires 0 <= k < |es|
  {
    es[k := es[k].(refs := es[k].refs + d)]
  }

  function Without(es: seq<Entry>, k: int): seq<Entry>
    requires 0 <= k < |es|
  {
    es[..k] + es[k + 1..]
  }

  lemma CountedOpenAgain(es: seq<Entry>, log: seq<Event>, k: int)
    requires Counted(es, log) && 0 <= k < |es|
    ensures Counted(Changed(es, k, 1), log + [Opened(es[k].name)])
  {
    hide Balance;
    BalanceStepAll(log, Opened(es[k].name));
    SameNames(es, Changed(es, k, 1));
  }

  lemma SameNames(es: seq<Entry>, fs: seq<Entry>)
    requires |es| == |fs| && forall i :: 0 <= i < |es| ==> es[i].name == fs[i].name
    ensures forall f :: Lists(es, f) <==> Lists(fs, f)
  {
  }

  lemma CountedOpenNew(es: seq<Entry>, log: seq<Event>, e: Entry)
    requires Counted(es, log) && !Lists(es, e.name) && e.refs == 1
    ensures Counted([e] + es, log + [Opened(e.name)])
  {
    hide Balance;
    BalanceStepAll(log, Opened(e.name));
    var fs := [e] + es;
    assert forall i :: 1 <= i < |fs| ==> fs[i] == es[i - 1];
    forall f | !Lists(fs, f) ensures e.name != f && !Lists(es, f) {
      assert fs[0] == e;
      assert forall i {:trigger es[i]} :: 0 <= i < |es| ==> fs[i + 1] == es[i];
    }
  }

  lemma CountedCloseAgain(es: seq<Entry>, log: seq<Event>, k: int)
    requires Counted(es, log) && 0 <= k < |es| && (es[k].resident || es[k].refs > 1)
    ensures Counted(Changed(es, k, -1), log + [Closed(es[k].name)])
  {
    hide Balance;
    BalanceStepAll(log, Closed(es[k].name));
    SameNames(es, Changed(es, k, -1));
  }

  lemma WithoutAt(es: seq<Entry>, k: int, i: int)
    requires 0 <= k < |es| && 0 <= i < |es| - 1
    ensures Without(es, k)[i] == es[if i < k then i else i + 1]
  {
  }

  /** Taking away the entry takes away its name and no other. */
  lemma NamesWithout(es: seq<Entry>, k: int, f: Name)
    requires 0 <= k < |es| && forall i, j :: 0 <= i < j < |es| ==> es[i].name != es[j].name
    ensures Lists(Without(es, k), f) <==> Lists(es, f) && f != es[k].name
  {
    if i :| 0 <= i < |es| && es[i].name == f {
      if i != k {
        WithoutAt(es, k, if i < k then i else i - 1);
      }
    }
    if i :| 0 <= i < |es| - 1 && Without(es, k)[i].name == f {
      WithoutAt(es, k, i);
    }
  }

  lemma CountedCloseLast(es: seq<Entry>, log: seq<Event>, k: int)
    requires Counted(es, log) && 0 <= k < |es| && !es[k].resident && es[k].refs <= 1
    ensures Counted(Without(es, k), log + [Closed(es[k].name)])
  {
    hide Balance, Without, Lists;
    BalanceStepAll(log, Closed(es[k].name));
    var fs := Without(es, k);
    SizeWithout(es, k);
    forall i, j | 0 <= i < j < |fs| ensures fs[i].name != fs[j].name {
      WithoutAt(es, k, i);
      WithoutAt(es, k, j);
    }
    forall i | 0 <= i < |fs|
      ensures fs[i].refs == Balance(log + [Closed(es[k].name)], fs[i].name) && (!fs[i].resident ==> fs[i].refs >= 1)
    {
      WithoutAt(es, k, i);
    }
    forall f | !Lists(fs, f) ensures Balance(log + [Closed(es[k].name)], f) == 0 {
      NamesWithout(es, k, f);
    }
  }

  lemma SizeWithout(es: seq<Entry>, k: int)
    requires 0 <= k < |es|
    ensures |Without(es, k)| == |es| - 1
  {
  }

  // ----- shutting down -----

  /** Every module that is not resident is referenced. */
  ghost predicate Sound(es: seq<Entry>) {
    forall i :: 0 <= i < |es| && !es[i].resident ==> es[i].refs >= 1
  }

  ghost predicate Bounded(es: seq<Entry>, bound: int) {
    forall i :: 0 <= i < |es| && !es[i].resident ==> es[i].refs <= bound
  }

  /** The references to modules that are not resident. */
  ghost function Total(es: seq<Entry>): int {
    if es == [] then 0 else (if es[0].resident then 0 else es[0].refs) + Total(es[1..])
  }

  ghost function Residents(es: seq<Entry>): seq<Entry> {
    if es == [] then [] else (if es[0].resident then [es[0]] else []) + Residents(es[1..])
  }

  ghost function DropLeading(es: seq<Entry>): seq<Entry> {
    if es != [] && es[0].resident then DropLeading(es[1..]) else es
  }

  /** What is dropped are the leading resident modules and no others. */
  lemma {:induction false} DropLeadingIs(es: seq<Entry>) returns (k: int)
    ensures 0 <= k <= |es| && DropLeading(es) == es[k..] && forall i :: 0 <= i < k ==> es[i].resident
    ensures k < |es| ==> !es[k].resident
    decreases |es|
  {
    k := 0;
    if es != [] && es[0].resident {
      k := DropLeadingIs(es[1..]);
      assert forall i :: 0 < i <= k ==> es[i] == es[1..][i - 1];
      assert es[1..][k..] == es[k + 1..];
      k := k + 1;
    }
  }

  ghost function MaxRefs(es: seq<Entry>): (m: int)
    ensures Bounded(es, m)
  {
    if es == [] then 0
    else
      var m := MaxRefs(es[1..]);
      assert forall i :: 1 <= i < |es| ==> es[i] == es[1..][i - 1];
      if es[0].refs > m then es[0].refs else m
  }

  lemma CountedIsSound(es: seq<Entry>, log: seq<Event>)
    requires Counted(es, log)
    ensures Sound(es)
  {
  }

  lemma {:induction false} SoundTail(es: seq<Entry>)
    requires Sound(es)
    ensures Sound(DropLeading(es))
    decreases |es|
  {
    if es != [] && es[0].resident {
      SoundTail(es[1..]);
    }
  }

  lemma {:induction false} AllResident(es: seq<Entry>)
    requires forall i :: 0 <= i < |es| ==> es[i].resident
    ensures Residents(es) == es
    decreases |es|
  {
    if es != [] {
      AllResident(es[1..]);
    }
  }

  lemma {:induction false} TotalAppend(a: seq<Entry>, b: seq<Entry>)
    ensures Total(a + b) == Total(a) + Total(b) && Residents(a + b) == Residents(a) + Residents(b)
    decreases |a|
  {
    if a == [] {
      assert a + b == b;
    } else {
      assert (a + b)[1..] == a[1..] + b;
      TotalAppend(a[1..], b);
    }
  }

  lemma {:induction false} TotalPositive(es: seq<Entry>)
    requires Sound(es)
    ensures Total(es) >= 0
    decreases |es|
  {
    if es != [] {
      TotalPositive(es[1..]);
    }
  }

  lemma TotalOne(e: Entry)
    ensures Total([e]) == (if e.resident then 0 else e.refs) && Residents([e]) == if e.resident then [e] else []
  {
    assert [e][1..] == [];
  }

  /** A close takes one reference away and no resident module. */
  lemma TotalClose(es: seq<Entry>, k: int)
    requires 0 <= k < |es| && !es[k].resident
    ensures Total(Changed(es, k, -1)) == Total(es) - 1 && Residents(Changed(es, k, -1)) == Residents(es)
    ensures Total(Without(es, k)) == Total(es) - es[k].refs && Residents(Without(es, k)) == Residents(es)
  {
    hide Total, Residents;
    var a, b, c := es[..k], es[k], es[k + 1..];
    var d := b.(refs := b.refs - 1);
    assert es == a + ([b] + c) && Changed(es, k, -1) == a + ([d] + c);
    TotalOne(b);
    TotalOne(d);
    TotalAppend(a, [b] + c);
    TotalAppend([b], c);
    TotalAppend(a, [d] + c);
    TotalAppend([d], c);
    TotalAppend(a, c);
    assert [] + Residents(c) == Residents(c);
  }

  ghost predicate SomeNonresident(es: seq<Entry>, p: int)
    requires p <= |es|
  {
    exists i :: 0 <= i < p && !es[i].resident
  }

  lemma NoneBelow(es: seq<Entry>, level: int, bound: int)
    requires Bounded(es, bound) && forall i :: 0 <= i < |es| && !es[i].resident ==> es[i].refs > level
    ensures SomeNonresident(es, |es|) ==> level < bound
    ensures !SomeNonresident(es, |es|) ==> forall i :: 0 <= i < |es| ==> es[i].resident
  {
  }

  lemma SoundClose(es: seq<Entry>, k: int, bound: int)
    requires 0 <= k < |es| && !es[k].resident && Sound(es) && Bounded(es, bound)
    ensures es[k].refs > 1 ==> Sound(Changed(es, k, -1)) && Bounded(Changed(es, k, -1), bound)
    ensures es[k].refs <= 1 ==> es[k].refs == 1 && Sound(Without(es, k)) && Bounded(Without(es, k), bound)
  {
    SizeWithout(es, k);
    hide Without;
    forall i | 0 <= i < |Without(es, k)|
      ensures !Without(es, k)[i].resident ==> 1 <= Without(es, k)[i].refs <= bound
    {
      WithoutAt(es, k, i);
    }
  }

  /** The links run through the handles of `spine`, from `first` on. */
  ghost predicate Chain(first: Handle?, spine: seq<Handle>)
    reads spine`next
  {
    && first == (if spine == [] then null else spine[0])
    && (forall i {:trigger spine[i].next} :: 0 <= i < |spine| ==>
         spine[i].next == if i + 1 < |spine| then spine[i + 1] else null)
    && (forall i, j :: 0 <= i < j < |spine| ==> spine[i] != spine[j])
  }

  ghost function Infos(spine: seq<Handle>): (es: seq<Entry>)
    reads spine
    ensures |es| == |spine| && forall i :: 0 <= i < |es| ==> es[i] == spine[i].Info()
  {
    seq(|spine|, i requires 0 <= i < |spine| reads spine => spine[i].Info())
  }

  /** The handle `n` links after `h`, along the handles of `hs`. */
  ghost function After(h: Handle?, n: nat, hs: seq<Handle>): Handle?
    reads hs`next
  {
    if h == null || n == 0 then h
    else if h in hs then After(h.next, n - 1, hs) else null
  }

  lemma {:induction false} ChainAfter(first: Handle?, hs: seq<Handle>, k: nat, n: nat)
    requires Chain(first, hs) && k + n <= |hs|
    ensures After(if k < |hs| then hs[k] else null, n, hs) == if k + n < |hs| then hs[k + n] else null
    decreases n
  {
    if n > 0 {
      assert hs[k].next == if k + 1 < |hs| then hs[k + 1] else null;
      ChainAfter(first, hs, k + 1, n - 1);
    }
  }

  /** The links of the first handles lead back to the first one. */
  ghost predicate Ring(hs: seq<Handle>, k: int)
    requires 0 <= k < |hs|
    reads hs`next
  {
    (forall i {:trigger hs[i].next} :: 0 <= i < k ==> hs[i].next == hs[i + 1]) && hs[k].next == hs[0]
  }

  lemma {:induction false} RingAfter(hs: seq<Handle>, k: int, j: int, n: nat)
    requires 0 <= j <= k < |hs| && Ring(hs, k)
    ensures After(hs[j], n, hs) != null
    decreases n
  {
    if n > 0 {
      RingAfter(hs, k, if j < k then j + 1 else 0, n - 1);
    }
  }

  function Dropped(hs: seq<Handle>, k: int): seq<Handle>
    requires 0 <= k < |hs|
  {
    hs[..k] + hs[k + 1..]
  }

  class Modules {
    var handles: Handle?
    var initialized: int
    ghost var spine: seq<Handle>
    ghost var log: seq<Event>

    ghost predicate Linked()
      reads this`handles, this`spine, spine`next
    {
      Chain(handles, spine)
    }

    ghost function Entries(): seq<Entry>
      reads this`spine, spine
    {
      Infos(spine)
    }

    ghost predicate Valid()
      reads this`handles, this`spine, this`log, spine
    {
      Linked() && Counted(Entries(), log)
    }

    constructor ()
      ensures Valid() && spine == [] && log == [] && initialized == 1
    {
      handles, initialized, spine, log := null, 1, [], [];
    }

    /** The loop of tryall_dlopen that looks for an opened module. */
    method Lookup(f: Name) returns (cur: Handle?, ghost k: int)
      requires Linked()
      ensures cur == null ==> !Lists(Entries(), f)
      ensures cur != null ==> 0 <= k < |spine| && cur == spine[k] && cur.filename == f
    {
      cur, k := handles, 0;
      while cur != null && cur.filename != f
        invariant 0 <= k <= |spine| && cur == (if k < |spine| then spine[k] else null)
        invariant forall i :: 0 <= i < k ==> Entries()[i].name != f
        decreases |spine| - k
      {
        cur, k := cur.next, k + 1;
      }
    }

    /** Following the links from the first handle never comes to an end. */
    ghost predicate Endless()
      reads this`handles, this`spine, spine`next
    {
      forall n: nat :: After(handles, n, spine) != null
    }

    lemma EmptyList()
      requires Valid() && spine == [] && log == []
      ensures Entries() == [] && forall f :: Balance(log, f) == 0 && !Lists(Entries(), f)
    {
    }

    lemma CountIs(k: int)
      requires Valid() && 0 <= k < |spine|
      ensures Balance(log, Entries()[k].name) == Entries()[k].refs
    {
    }

    lemma InfoOf(k: int)
      requires 0 <= k < |spine|
      ensures |Entries()| == |spine| && Entries()[k] == spine[k].Info()
    {
    }

    lemma LinkedEnds()
      requires Linked()
      ensures !Endless()
    {
      ChainAfter(handles, spine, 0, |spine|);
      assert After(handles, |spine|, spine) == null;
    }

    /** What an open does that finds the module on the list, or makes a new handle. */
    ghost predicate OpenedWell(f: Name, loads: bool, h: Handle?, k: int, was: seq<Handle>, es: seq<Entry>)
      reads this`spine, spine
    {
      if Lists(es, f) then
        0 <= k < |spine| && k < |es| && spine == was && spine[k] == h && es[k].name == f
            && Entries() == Changed(es, k, 1)
      else if loads then
        h != null && h !in was && spine == [h] + was && Entries() == [Entry(f, 1, f.None?)] + es
      else h == null && spine == was && Entries() == es
    }

    /** tryall_dlopen: a listed module of that name counts once more, otherwise the
        new handle is taken. `found` and `loads` say whether the file is there and
        whether some loader takes it. */
    method TryAll(newhandle: Handle, f: Name, found: bool, loads: bool) returns (h: Handle?, ghost k: int)
      requires Valid() && newhandle !in spine
      modifies spine`refCount
      ensures Linked()
      ensures if old(Lists(Entries(), f)) then
                && 0 <= k < |spine| && spine[k] == h && old(Entries())[k].name == f
                && Entries() == Changed(old(Entries()), k, 1) && h.refCount == Balance(log, f) + 1
              else
                h == (if found && loads then newhandle else null) && Entries() == old(Entries()) && Balance(log, f) == 0
    {
      hide Counted, Lists, Chain, Changed, Infos, Balance;
      h, k := Lookup(f);
      Listed(Entries(), log, f, k, h != null);
      if h != null {
        EntryOf(k);
        Adjust(h, k, 1);
      } else if found && loads {
        h := newhandle;
      }
    }

    /** Opens a module: one that is listed already counts once more, a new one is
        put in front of the list. A resident module that was closed once too often
        comes back to no reference at all and is taken for a new one: put in front
        of the list once more, it makes a ring of it. */
    method Open(f: Name, found: bool, loads: bool) returns (h: Handle?, ghost k: int)
      requires Valid()
      modifies this`handles, this`spine, this`log, spine
      ensures Valid() <==> old(Balance(log, f)) != -1
      ensures Endless() <==> old(Balance(log, f)) == -1
      ensures old(Balance(log, f)) != -1 ==> OpenedWell(f, found && loads, h, k, old(spine), old(Entries()))
      ensures old(Balance(log, f)) == -1 ==>
                && 0 <= k < |spine| && spine == old(spine) && spine[k] == h && handles == h && h.next == old(handles)
                && Entries() == Changed(old(Entries()), k, 2)
      ensures h != null && h !in old(spine) ==> fresh(h)
      ensures log == old(log) + if h != null then [Opened(f)] else []
    {
      hide Counted, Lists, Chain, Changed, Infos, Balance, Endless;
      var newhandle := new Handle(f, f.None?);
      ghost var es, was := Entries(), log;
      h, k := TryAll(newhandle, f, found, loads);
      if h == null {
        assert log + [] == log;
        LinkedEnds();
        return;
      }
      log := log + [Opened(f)];
      if h.refCount != 0 {
        CountedOpenAgain(es, was, k);
        LinkedEnds();
      } else {
        Register(h, h != newhandle, k);
        if h != newhandle {
          ChangedTwice(es, k);
        } else {
          CountedOpenNew(es, was, Entry(f, 1, f.None?));
          LinkedEnds();
        }
      }
    }

    lemma ChangedTwice(es: seq<Entry>, k: int)
      requires 0 <= k < |es|
      ensures |Changed(es, k, 1)| == |es| && Changed(Changed(es, k, 1), k, 1) == Changed(es, k, 2)
    {
    }

    lemma Listed(es: seq<Entry>, l: seq<Event>, f: Name, k: int, known: bool)
      requires Counted(es, l) && if known then 0 <= k < |es| && es[k].name == f else !Lists(es, f)
      ensures known ==> Lists(es, f) && es[k].refs == Balance(l, f)
      ensures !known ==> Balance(l, f) == 0
    {
    }

    lemma RingEndless(k: int)
      requires 0 <= k < |spine| && handles == spine[k] && Ring(spine, k)
      ensures Endless() && !Linked()
    {
      forall n: nat ensures After(handles, n, spine) != null {
        RingAfter(spine, k, k, n);
      }
      if Linked() {
        LinkedEnds();
      }
    }

    /** Changes one reference count. */
    method Adjust(h: Handle, ghost k: int, d: int)
      requires Linked() && 0 <= k < |spine| && spine[k] == h
      modifies h`refCount
      ensures Linked() && Entries() == Changed(old(Entries()), k, d) && h.refCount == old(h.refCount) + d
    {
      h.refCount := h.refCount + d;
    }

    /** Puts a handle in front of the list. If it is listed already, the links lead
        from it to the first one and back to it. */
    method Link(h: Handle, ghost known: bool, ghost k: int)
      requires Linked() && if known then 0 <= k < |spine| && spine[k] == h else h !in spine
      modifies h`next, this`handles, this`spine
      ensures handles == h && h.next == old(handles)
      ensures known ==> spine == old(spine) && Ring(spine, k)
      ensures !known ==> Linked() && spine == [h] + old(spine)
    {
      ghost var was := spine;
      h.next := handles;
      handles := h;
      if known {
        forall i | 0 <= i < k ensures spine[i].next == spine[i + 1] {
          assert spine[i] != h;
        }
      } else {
        assert forall i :: 0 <= i < |was| ==> was[i] in was;
        spine := [h] + spine;
        assert forall i :: 1 <= i < |spine| ==> spine[i] == was[i - 1];
        forall i | 1 <= i < |spine| ensures spine[i].next == if i + 1 < |spine| then spine[i + 1] else null {
          assert was[i - 1] != h;
          assert old(was[i - 1].next) == if i < |was| then was[i] else null;
        }
      }
    }

    lemma OnlyThere(k: int)
      requires Linked() && 0 <= k < |spine|
      ensures forall i :: 0 <= i < |spine| && i != k ==> spine[i] != spine[k]
    {
    }

    /** What try_dlopen does with a handle that has no reference yet. */
    method Register(h: Handle, ghost known: bool, ghost k: int)
      requires Linked() && if known then 0 <= k < |spine| && spine[k] == h && h.refCount == 0 else h !in spine
      modifies h`next, h`refCount, this`handles, this`spine
      ensures handles == h && h.next == old(handles)
      ensures known ==> Endless() && !Linked() && spine == old(spine) && Entries() == Changed(old(Entries()), k, 1)
      ensures !known ==> Linked() && spine == [h] + old(spine)
      ensures !known ==> Entries() == [Entry(h.filename, 1, h.resident)] + old(Entries())
    {
      hide Ring, Chain, After, Infos, Endless;
      ghost var was, es := spine, Entries();
      if known {
        OnlyThere(k);
      }
      h.refCount := 1;
      Link(h, known, k);
      if known {
        RingEndless(k);
      } else {
        assert forall i :: 1 <= i < |spine| ==> spine[i] == was[i - 1];
        assert forall i :: 0 <= i < |was| ==> was[i] in was;
        assert forall i :: 1 <= i < |spine| ==> Entries()[i] == es[i - 1];
      }
    }

    /** Closes a module once; at its last close one that is not resident is taken
        off the list. `fails` says whether the loader cannot close the module. The
        result counts the errors. */
    method Close(handle: Handle, fails: bool) returns (errors: int)
      requires Linked()
      modifies this`handles, this`spine, this`log, spine
      ensures Linked() && (old(Valid()) ==> Valid())
      ensures log == old(log) + if handle in old(spine) then [Closed(old(handle.filename))] else []
      ensures handle !in old(spine) ==> errors == 1 && spine == old(spine) && Entries() == old(Entries())
      ensures forall k :: 0 <= k < |old(spine)| && old(spine)[k] == handle ==>
                var e := old(Entries())[k];
                if e.refs <= 1 && !e.resident then
                  && errors == (if fails then 1 else 0)
                  && spine == Dropped(old(spine), k) && Entries() == Without(old(Entries()), k)
                else
                  errors == (if e.resident then 1 else 0) && spine == old(spine)
                      && Entries() == Changed(old(Entries()), k, -1)
    {
      hide Chain, Counted, Balance, Infos;
      var cur, last;
      ghost var k;
      ghost var es := Entries();
      cur, last, k := Search(handle);
      if cur == null {
        assert log + [] == log;
        return 1;
      }
      EntryOf(k);
      CloseCounts(es, log, k);
      log := log + [Closed(handle.filename)];
      Adjust(handle, k, -1);
      if handle.refCount <= 0 && !handle.resident {
        Remove(handle, last, k);
        errors := if fails then 1 else 0;
      } else {
        errors := if handle.resident then 1 else 0;
      }
    }

    lemma CloseCounts(es: seq<Entry>, l: seq<Event>, k: int)
      requires 0 <= k < |es|
      ensures Counted(es, l) ==>
                Counted(if es[k].refs <= 1 && !es[k].resident then Without(es, k) else Changed(es, k, -1),
                        l + [Closed(es[k].name)])
    {
      hide Counted;
      if Counted(es, l) {
        if es[k].refs <= 1 && !es[k].resident {
          CountedCloseLast(es, l, k);
        } else {
          CountedCloseAgain(es, l, k);
        }
      }
    }

    /** The loop that looks for the handle and for the one before it. */
    method Search(handle: Handle) returns (cur: Handle?, last: Handle?, ghost k: int)
      requires Linked()
      ensures cur == null ==> handle !in spine
      ensures cur != null ==>
                cur == handle && 0 <= k < |spine| && spine[k] == handle && (k > 0 ==> last == spine[k - 1])
      ensures cur != null ==> forall i :: 0 <= i < |spine| && spine[i] == handle ==> i == k
    {
      cur, last, k := handles, handles, 0;
      while cur != null && cur != handle
        invariant 0 <= k <= |spine| && cur == (if k < |spine| then spine[k] else null)
        invariant forall i :: 0 <= i < k ==> spine[i] != handle
        invariant k > 0 ==> last == spine[k - 1]
        decreases |spine| - k
      {
        last, cur, k := cur, cur.next, k + 1;
      }
    }

    /** Takes a handle off the list. */
    method Unlink(handle: Handle, last: Handle?, ghost k: int)
      requires Linked() && 0 <= k < |spine| && handle == spine[k] && (k > 0 ==> last == spine[k - 1])
      modifies this`handles, this`spine, spine`next
      ensures Linked() && spine == Dropped(old(spine), k)
    {
      ghost var was := spine;
      assert handle.next == if k + 1 < |spine| then spine[k + 1] else null;
      if handle != handles {
        last.next := handle.next;
      } else {
        handles := handle.next;
      }
      spine := Dropped(spine, k);
      assert forall i :: 0 <= i < |spine| ==> spine[i] == was[if i < k then i else i + 1];
      forall i | 0 <= i < |spine| ensures spine[i].next == if i + 1 < |spine| then spine[i + 1] else null {
        var j := if i < k then i else i + 1;
        assert old(was[j].next) == if j + 1 < |was| then was[j + 1] else null;
      }
    }

    method Remove(handle: Handle, last: Handle?, ghost k: int)
      requires Linked() && 0 <= k < |spine| && handle == spine[k] && (k > 0 ==> last == spine[k - 1])
      modifies this`handles, this`spine, spine`next
      ensures Linked() && spine == Dropped(old(spine), k) && Entries() == Without(old(Entries()), k)
    {
      hide Chain;
      ghost var was, es := spine, Entries();
      Unlink(handle, last, k);
      forall i | 0 <= i < |spine| ensures Entries()[i] == Without(es, k)[i] {
        WithoutAt(es, k, i);
        assert was[if i < k then i else i + 1] in was;
      }
      assert |Entries()| == |Without(es, k)|;
    }

    /** lt_dlmakeresident, of a listed handle. */
    method MakeResident(h: Handle, ghost k: int)
      requires Valid() && 0 <= k < |spine| && spine[k] == h
      modifies h`resident
      ensures Valid() && Entries() == old(Entries())[k := old(Entries())[k].(resident := true)]
    {
      hide Counted, Balance;
      ghost var es := Entries();
      h.resident := true;
      assert Entries() == es[k := es[k].(resident := true)];
      ResidentCounts(es, log, k);
    }

    lemma ResidentCounts(es: seq<Entry>, l: seq<Event>, k: int)
      requires Counted(es, l) && 0 <= k < |es|
      ensures Counted(es[k := es[k].(resident := true)], l)
    {
      SameNames(es, es[k := es[k].(resident := true)]);
    }

    /** lt_dlexit: only the last of several calls shuts down. */
    method Shutdown(fails: Name -> bool) returns (errors: int)
      requires Valid() && initialized >= 0
      modifies this`handles, this`spine, this`log, this`initialized, spine
      ensures old(initialized) == 0 ==> errors == 1 && initialized == 0
      ensures old(initialized) > 0 ==> initialized == old(initialized) - 1
      ensures old(initialized) != 1 ==> Valid() && spine == old(spine) && Entries() == old(Entries())
      ensures old(initialized) == 1 ==> Linked() && Entries() == Residents(DropLeading(old(Entries())))
    {
      if initialized == 0 {
        return 1;
      }
      initialized := initialized - 1;
      errors := 0;
      if initialized == 0 {
        errors := Exit(fails);
      }
    }

    /** The loops of lt_dlexit that run once nobody uses the list any more. Leading
        resident modules are dropped, and of the others only resident ones stay. */
    method Exit(fails: Name -> bool) returns (errors: int)
      requires Valid()
      modifies this`handles, this`spine, this`log, spine
      ensures Linked() && Entries() == Residents(DropLeading(old(Entries())))
    {
      hide Chain, Infos, Counted;
      errors := 0;
      ghost var es0 := Entries();
      CountedIsSound(es0, log);
      DropResidents();
      ghost var es := Entries();
      ghost var bound := MaxRefs(es);
      SoundTail(es0);
      NothingListed();
      var level := 1;
      while handles != null
        invariant Linked() && Sound(Entries()) && Bounded(Entries(), bound) && Residents(Entries()) == Residents(es)
        invariant forall h :: h in spine ==> h in old(spine)
        decreases Total(Entries()), bound - level
      {
        assert forall i :: 0 <= i < |spine| ==> spine[i] in spine && spine[i] in old(spine);
        var sawNonresident, e := Pass(fails, level, bound);
        errors := errors + e;
        if !sawNonresident {
          AllResident(Entries());
          break;
        }
        level := level + 1;
      }
      NothingListed();
    }

    lemma NothingListed()
      requires Linked()
      ensures handles == null ==> Entries() == []
    {
    }

    /** The first loop: leading resident modules. */
    method DropResidents()
      requires Linked()
      modifies this`handles, this`spine
      ensures Linked() && Entries() == DropLeading(old(Entries())) && forall h :: h in spine ==> h in old(spine)
    {
      while handles != null && handles.resident
        invariant Linked() && DropLeading(Entries()) == DropLeading(old(Entries()))
                  && forall h :: h in spine ==> h in old(spine)
        decreases |spine|
      {
        ghost var was, es := spine, Entries();
        handles := handles.next;
        spine := spine[1..];
        assert forall i :: 0 <= i < |spine| ==> spine[i] == was[i + 1];
        forall i | 0 <= i < |spine| ensures spine[i].next == if i + 1 < |spine| then spine[i + 1] else null {
          assert was[i + 1].next == if i + 2 < |was| then was[i + 2] else null;
        }
        assert Entries() == es[1..];
      }
    }

    /** One level: every module with no more references than the level is closed
        once. Either something was closed or every count is above the level. */
    method Pass(fails: Name -> bool, level: int, ghost bound: int) returns (sawNonresident: bool, errors: int)
      requires Linked() && Sound(Entries()) && Bounded(Entries(), bound) && level >= 1
      modifies this`handles, this`spine, this`log, spine
      ensures Linked() && Sound(Entries()) && Bounded(Entries(), bound)
      ensures Residents(Entries()) == Residents(old(Entries()))
      ensures forall h :: h in spine ==> h in old(spine)
      ensures !sawNonresident ==>
                Entries() == old(Entries()) && forall i :: 0 <= i < |Entries()| ==> Entries()[i].resident
      ensures sawNonresident ==>
                0 <= Total(Entries()) < Total(old(Entries()))
                || (Total(Entries()) == Total(old(Entries())) && level < bound)
    {
      hide Chain, Infos, Total, Residents, Sound, Bounded;
      ghost var es, was := Entries(), spine;
      ghost var p, closed := 0, false;
      FirstOf();
      var cur := handles;
      sawNonresident, errors := false, 0;
      while cur != null
        invariant Linked() && Sound(Entries()) && Bounded(Entries(), bound) && Residents(Entries()) == Residents(es)
        invariant forall h :: h in spine ==> h in was
        invariant 0 <= p <= |spine| && cur == if p < |spine| then spine[p] else null
        invariant closed ==> sawNonresident && Total(Entries()) < Total(es)
        invariant !closed ==> && spine == was && Entries() == es && (sawNonresident <==> SomeNonresident(es, p))
                              && forall i :: 0 <= i < p && !es[i].resident ==> es[i].refs > level
        decreases |spine| - p
      {
        var tmp := cur;
        EntryOf(p);
        cur := cur.next;
        if !tmp.resident {
          sawNonresident := true;
        }
        if !tmp.resident && tmp.refCount <= level {
          var e;
          assert forall i :: 0 <= i < |spine| ==> spine[i] in spine && spine[i] in was;
          e, p := CloseAt(tmp, fails(tmp.filename), p, bound);
          if e != 0 {
            errors := errors + 1;
          }
          closed := true;
        } else {
          p := p + 1;
        }
      }
      TotalPositive(Entries());
      if !closed {
        NoneBelow(es, level, bound);
      }
    }

    lemma FirstOf()
      requires Linked()
      ensures handles == if spine == [] then null else spine[0]
    {
    }

    lemma EntryOf(p: int)
      requires Linked() && 0 <= p < |spine|
      ensures |Entries()| == |spine| && Entries()[p] == spine[p].Info()
      ensures spine[p].next == if p + 1 < |spine| then spine[p + 1] else null
    {
    }

    /** Closes the module at place `p`; `q` is the place of the one after it. */
    method CloseAt(h: Handle, fail: bool, ghost p: int, ghost bound: int) returns (errors: int, ghost q: int)
      requires Linked() && 0 <= p < |spine| && spine[p] == h && !h.resident && Sound(Entries())
               && Bounded(Entries(), bound)
      modifies this`handles, this`spine, this`log, spine
      ensures Linked() && Sound(Entries()) && Bounded(Entries(), bound)
      ensures Residents(Entries()) == Residents(old(Entries())) && Total(Entries()) == Total(old(Entries())) - 1
      ensures forall h :: h in spine ==> h in old(spine)
      ensures 0 <= q <= |spine| && |spine| - q == |old(spine)| - p - 1 && spine[q..] == old(spine)[p + 1..]
    {
      hide Chain, Infos, Total, Residents;
      ghost var es, was := Entries(), spine;
      EntryOf(p);
      TotalClose(es, p);
      SoundClose(es, p, bound);
      errors := Close(h, fail);
      q := if spine == was then p + 1 else p;
    }
  }

  /** One module, listed alone. */
  method OneModule(f: string) returns (m: Modules, h: Handle)
    ensures fresh(m) && fresh(h) && m.Valid() && m.spine == [h]
    ensures m.log == [Opened(Some(f))] && m.Entries() == [Entry(Some(f), 1, false)]
  {
    hide Counted, Balance, Infos, Chain;
    m := new Modules();
    m.EmptyList();
    var a, k := m.Open(Some(f), true, true);
    h := a;
  }

  /** Making a module resident, closing it twice and opening it again leaves a list
      in which the module is its own successor: the loop of lt_dlexit that skips
      leading resident modules sees it again after any number of steps. */
  method ReopenResident(f: string) returns (m: Modules, h: Handle)
    ensures fresh(m) && m.log == [Opened(Some(f)), Closed(Some(f)), Closed(Some(f)), Opened(Some(f))]
    ensures !m.Valid() && m.handles == h && h.next == h && h.resident && h.refCount == 1
    ensures forall n: nat :: After(m.handles, n, [h]) == h
  {
    hide Counted, Balance, Infos, Chain, After, Lists, Modules.Entries, Modules.Endless, Modules.Linked,
         Modules.OpenedWell;
    m, h := OneModule(f);
    m.MakeResident(h, 0);
    assert m.Entries() == [Entry(Some(f), 1, true)];
    m.InfoOf(0);
    var errors := m.Close(h, false);
    assert m.Entries() == [Entry(Some(f), 0, true)] && m.log == [Opened(Some(f)), Closed(Some(f))];
    m.InfoOf(0);
    errors := m.Close(h, false);
    assert m.Entries() == [Entry(Some(f), -1, true)] && m.log == [Opened(Some(f)), Closed(Some(f)), Closed(Some(f))];
    m.CountIs(0);
    m.FirstOf();
    assert m.spine == [h];
    var b, j := m.Open(Some(f), true, true);
    m.InfoOf(0);
    forall n: nat ensures After(m.handles, n, [h]) == h {
      SelfLoop(h, n);
    }
  }

  lemma {:induction false} SelfLoop(h: Handle, n: nat)
    requires h.next == h
    ensures After(h, n, [h]) == h
    decreases n
  {
    if n > 0 {
      SelfLoop(h, n - 1);
    }
  }
}
