/** The in-memory cache of certificate revocation lists: a growing array of slots that stands for a map from
    distribution point to list, with shared ownership of the lists by reference counting. */
module CrlCache {
  import opened Common

  type Url = string

  /** X509_CRL: a reference-counted object with its date of expiry. */
  class Crl {
    var references: nat
    const nextUpdate: int

    constructor (nextUpdate: int)
      ensures references == 1 && this.nextUpdate == nextUpdate
    {
      references := 1;
      this.nextUpdate := nextUpdate;
    }

    predicate ValidAt(now: int) {
      now < nextUpdate
    }
  }

  /** CRL_CACHE_ENTRY. A slot without a list is free, whatever its URL. */
  datatype Entry = Entry(crl: Crl?, url: Option<Url>)

  predicate Live(e: Entry) {
    e.crl != null && e.url.Some?
  }

  predicate IsFor(e: Entry, url: Url) {
    Live(e) && e.url.value == url
  }

  // ----- what an array of slots stands for -----

  /** Every list is stored under some URL, and no two under the same one. */
  ghost predicate WellKept(es: seq<Entry>) {
    && (forall i | 0 <= i < |es| :: es[i].crl != null ==> es[i].url.Some?)
    && (forall i, j | 0 <= i < j < |es| && Live(es[i]) && Live(es[j]) :: es[i].url != es[j].url)
  }

  ghost function Urls(es: seq<Entry>): set<Url> {
    set i | 0 <= i < |es| && Live(es[i]) :: es[i].url.value
  }

  ghost function SlotFor(es: seq<Entry>, url: Url): (n: nat)
    requires url in Urls(es)
    ensures n < |es| && IsFor(es[n], url)
  {
    var n :| 0 <= n < |es| && IsFor(es[n], url);
    n
  }

  ghost function Contents(es: seq<Entry>): map<Url, Crl> {
    map url | url in Urls(es) :: es[SlotFor(es, url)].crl as Crl
  }

  lemma ContentsAt(es: seq<Entry>, n: nat)
    requires WellKept(es) && n < |es| && Live(es[n])
    ensures es[n].url.value in Contents(es) && Contents(es)[es[n].url.value] == es[n].crl
  {
    assert es[n].url.value in Urls(es);
    var m := SlotFor(es, es[n].url.value);
    assert m == n;
  }

  lemma ContentsHasSlot(es: seq<Entry>, n: nat)
    requires WellKept(es) && n < |es| && es[n].crl != null
    ensures Live(es[n]) && es[n].url.value in Contents(es) && Contents(es)[es[n].url.value] == es[n].crl
  {
    ContentsAt(es, n);
  }

  lemma NotInContents(es: seq<Entry>, url: Url)
    requires forall i | 0 <= i < |es| :: !IsFor(es[i], url)
    ensures url !in Contents(es)
  {}

  /** Emptying a slot forgets its URL. */
  lemma ContentsAfterClearing(es: seq<Entry>, n: nat, url: Option<Url>)
    requires WellKept(es) && n < |es| && Live(es[n])
    ensures WellKept(es[n := Entry(null, url)])
    ensures Contents(es[n := Entry(null, url)]) == Contents(es) - {es[n].url.value}
  {
    var es' := es[n := Entry(null, url)];
    assert WellKept(es');
    var m', m := Contents(es'), Contents(es) - {es[n].url.value};
    forall u | u in m' ensures u in m && m'[u] == m[u] {
      ClearedKeeps(es, n, url, u, SlotFor(es', u));
    }
    forall u | u in m ensures u in m' {
      ClearedKeeps(es, n, url, u, SlotFor(es, u));
    }
  }

  lemma ClearedKeeps(es: seq<Entry>, n: nat, url: Option<Url>, u: Url, k: nat)
    requires WellKept(es) && n < |es| && Live(es[n]) && WellKept(es[n := Entry(null, url)])
    requires k < |es| && k != n && IsFor(es[k], u)
    ensures u != es[n].url.value
    ensures u in Contents(es) && u in Contents(es[n := Entry(null, url)])
    ensures Contents(es[n := Entry(null, url)])[u] == Contents(es)[u]
  {
    ContentsAt(es, k);
    ContentsAt(es[n := Entry(null, url)], k);
    hide Contents;
  }

  /** Filling a free slot adds its URL. */
  lemma ContentsAfterStoring(es: seq<Entry>, n: nat, crl: Crl?, url: Url)
    requires WellKept(es) && n < |es| && es[n].crl == null
    requires crl != null ==> url !in Contents(es)
    ensures WellKept(es[n := Entry(crl, Some(url))])
    ensures Contents(es[n := Entry(crl, Some(url))]) == if crl == null then Contents(es) else Contents(es)[url := crl]
  {
    var es' := es[n := Entry(crl, Some(url))];
    StoringKeepsOrder(es, n, crl, url);
    hide WellKept;
    forall u | u in Contents(es') ensures u in (if crl == null then Contents(es) else Contents(es)[url := crl]) {
      StoredKeeps(es, n, Entry(crl, Some(url)), u, SlotFor(es', u));
    }
    forall u | u in Contents(es) ensures u in Contents(es') && Contents(es')[u] == Contents(es)[u] {
      StoredKeeps(es, n, Entry(crl, Some(url)), u, SlotFor(es, u));
    }
    if crl != null { ContentsAt(es', n); }
  }

  lemma StoringKeepsOrder(es: seq<Entry>, n: nat, crl: Crl?, url: Url)
    requires WellKept(es) && n < |es| && es[n].crl == null
    requires crl != null ==> url !in Contents(es)
    ensures WellKept(es[n := Entry(crl, Some(url))])
  {
    assert crl != null ==> forall i | 0 <= i < |es| && Live(es[i]) :: es[i].url.value in Contents(es);
    hide Contents;
  }

  lemma StoredKeeps(es: seq<Entry>, n: nat, e: Entry, u: Url, k: nat)
    requires WellKept(es) && n < |es| && es[n].crl == null && WellKept(es[n := e])
    requires k < |es| && IsFor(es[n := e][k], u)
    ensures k != n ==> u in Contents(es) && u in Contents(es[n := e]) && Contents(es[n := e])[u] == Contents(es)[u]
  {
    if k != n {
      ContentsAt(es, k);
      ContentsAt(es[n := e], k);
    }
    hide Contents;
  }

  /** Free slots at the end change nothing. */
  lemma ContentsAfterGrowing(es: seq<Entry>, more: seq<Entry>)
    requires WellKept(es) && forall e <- more :: e.crl == null
    ensures WellKept(es + more) && Contents(es + more) == Contents(es)
  {
    var es' := es + more;
    forall i | |es| <= i < |es'| ensures !Live(es'[i]) { assert es'[i] in more; }
    forall u | u in Contents(es') ensures u in Contents(es) {
      var m := SlotFor(es', u);
      ContentsAt(es, m);
    }
    forall u | u in Contents(es) ensures u in Contents(es') && Contents(es')[u] == Contents(es)[u] {
      var m := SlotFor(es, u);
      ContentsAt(es', m);
    }
  }

  // ----- who owns what -----

  /** The number of slots that hold a reference to `crl`. */
  ghost function SlotsHolding(es: seq<Entry>, crl: Crl): nat {
    if es == [] then 0 else
      SlotsHolding(es[..|es|-1], crl) + (if es[|es|-1].crl == crl then 1 else 0)
  }

  lemma {:induction false} HoldingAfterUpdate(es: seq<Entry>, n: nat, e: Entry, crl: Crl)
    requires n < |es|
    ensures SlotsHolding(es[n := e], crl) ==
            SlotsHolding(es, crl) - (if es[n].crl == crl then 1 else 0) + (if e.crl == crl then 1 else 0)
    ensures es[n].crl == crl ==> SlotsHolding(es, crl) > 0
  {
    var last := |es| - 1;
    if n < last {
      HoldingAfterUpdate(es[..last], n, e, crl);
      assert es[n := e][..last] == es[..last][n := e];
    } else {
      assert es[n := e][..last] == es[..last];
    }
  }

  lemma {:induction false} HoldingAfterGrowing(es: seq<Entry>, more: seq<Entry>, crl: Crl)
    requires forall e <- more :: e.crl == null
    ensures SlotsHolding(es + more, crl) == SlotsHolding(es, crl)
  {
    if more == [] {
      assert es + more == es;
    } else {
      var last := |more| - 1;
      assert (es + more)[..|es + more| - 1] == es + more[..last];
      HoldingAfterGrowing(es, more[..last], crl);
    }
  }

  /** Someone other than the cache owns every reference the slots do not account for. */
  ghost predicate Accounted(crls: set<Crl>, es: seq<Entry>, held: multiset<Crl>)
    reads crls
  {
    && (forall i | 0 <= i < |es| && es[i].crl != null :: es[i].crl in crls)
    && (forall c <- held :: c in crls)
    && (forall c <- crls :: c.references == SlotsHolding(es, c) + held[c])
  }

  lemma AccountedAfterUpdate(crls: set<Crl>, es: seq<Entry>, n: nat, e: Entry)
    requires n < |es|
    ensures forall c <- crls :: SlotsHolding(es[n := e], c) ==
              SlotsHolding(es, c) - (if es[n].crl == c then 1 else 0) + (if e.crl == c then 1 else 0)
    ensures forall c <- crls :: es[n].crl == c ==> SlotsHolding(es, c) > 0
  {
    forall c <- crls { HoldingAfterUpdate(es, n, e, c); }
  }

  class Cache {
    var slots: array<Entry>
    // the lists in existence, and the references to them that the cache does not own
    ghost var crls: set<Crl>
    ghost var held: multiset<Crl>
    ghost var steps: seq<Step> // what has been done to the map

    ghost predicate Sound()
      reads this, slots, crls
    {
      WellKept(slots[..]) && Accounted(crls, slots[..], held)
    }

    /** Moreover the slots stand for the map that the steps made so far lead to, each of them a legal one. */
    ghost predicate Valid()
      reads this, slots, crls
    {
      Sound() && LegalRun(steps) && Contents(slots[..]) == AfterRun(steps)
    }

    /** The cache as its users see it. */
    ghost function Now(): View
      reads this`slots, slots
    {
      View(Contents(slots[..]), slots.Length)
    }

    constructor ()
      ensures Valid() && slots[..] == [] && held == multiset{} && steps == [] && fresh(slots)
    {
      slots := new Entry[0];
      crls, held, steps := {}, multiset{}, [];
    }

    lemma HeldLives(c: Crl)
      requires Sound() && c in held
      ensures c in crls && c.references > 0
    {}

    /** One more reference for an owner outside the cache. */
    method UpRef(c: Crl)
      requires Sound() && c in crls && c.references > 0
      modifies c`references, `held
      ensures Sound() && held == old(held) + multiset{c}
    {
      c.references := c.references + 1;
      held := held + multiset{c};
    }

    /** The caller gets a reference to the list in slot `n`. */
    method Share(n: nat) returns (crl: Crl)
      requires Sound() && n < slots.Length && Live(slots[n])
      modifies slots[n].crl`references, `held
      ensures Sound() && crl == slots[n].crl && held == old(held) + multiset{crl}
    {
      crl := slots[n].crl;
      HoldingAfterUpdate(slots[..], n, slots[n], crl);
      UpRef(crl);
    }

    /** X509_CRL_free: an owner outside the cache gives up a reference it has. */
    method Free(c: Crl)
      requires Sound() && c in held
      modifies c`references, `held
      ensures Sound() && held == old(held) - multiset{c}
    {
      c.references := c.references - 1;
      held := held - multiset{c};
    }

    /** The cache gives up its reference to the list in slot `n`. */
    method Evict(n: nat)
      requires Sound() && n < slots.Length && Live(slots[n])
      modifies slots, slots[n].crl`references
      ensures Sound() && slots[..] == old(slots[..])[n := Entry(null, None)]
      ensures Contents(slots[..]) == Contents(old(slots[..])) - {old(slots[n]).url.value}
    {
      hide Contents, WellKept, SlotsHolding;
      ContentsAfterClearing(slots[..], n, None);
      AccountedAfterUpdate(crls, slots[..], n, Entry(null, None));
      var c := slots[n].crl;
      c.references := c.references - 1;
      slots[n] := Entry(null, None);
      assert slots[..] == old(slots[..])[n := Entry(null, None)];
    }

    /** The cache takes over a reference from outside and puts it in a free slot. */
    method Store(n: nat, c: Crl?, url: Url)
      requires Sound() && n < slots.Length && slots[n].crl == null
      requires c != null ==> c in held && url !in Contents(slots[..])
      modifies slots, `held
      ensures Sound() && slots[..] == old(slots[..])[n := Entry(c, Some(url))]
      ensures held == if c == null then old(held) else old(held) - multiset{c}
      ensures Contents(slots[..]) ==
              if c == null then Contents(old(slots[..])) else Contents(old(slots[..]))[url := c]
    {
      hide Contents, WellKept, SlotsHolding;
      ContentsAfterStoring(slots[..], n, c, url);
      AccountedAfterUpdate(crls, slots[..], n, Entry(c, Some(url)));
      slots[n] := Entry(c, Some(url));
      if c != null { held := held - multiset{c}; }
      assert slots[..] == old(slots[..])[n := Entry(c, Some(url))];
    }

    /** Ten more free slots. */
    method Grow()
      requires Sound()
      modifies `slots
      ensures Sound() && fresh(slots) && slots.Length == old(slots.Length) + 10
      ensures slots[..old(slots.Length)] == old(slots[..]) && slots[old(slots.Length)].crl == null
      ensures Contents(slots[..]) == Contents(old(slots[..]))
    {
      var size := slots.Length;
      ghost var es := slots[..];
      var bigger := new Entry[size + 10](i => Entry(null, None));
      forall i | 0 <= i < size { bigger[i] := slots[i]; }
      assert slots[..] == es;
      assert bigger[..] == es + bigger[size..];
      ContentsAfterGrowing(es, bigger[size..]);
      forall c <- crls ensures SlotsHolding(bigger[..], c) == SlotsHolding(es, c) {
        HoldingAfterGrowing(es, bigger[size..], c);
      }
      hide Contents, WellKept, SlotsHolding;
      assert forall i | 0 <= i < size :: bigger[..][i] == es[i];
      slots := bigger;
    }

    /** One more step has been made. */
    ghost method Log(s: Step)
      requires LegalRun(steps) && Legal(AfterRun(steps), s)
      modifies `steps
      ensures steps == old(steps) + [s] && LegalRun(steps) && AfterRun(steps) == After(AfterRun(old(steps)), s)
    {
      RunSnoc(steps, s);
      steps := steps + [s];
    }

    /** `load_cert_crl_memory`: the list last saved for the URL, with a reference for the caller, if it is still
        valid; an expired one is dropped. `url` is absent for a NULL URL; `locked` says that the lock was taken. */
    method Load(url: Option<Url>, now: int, locked: bool) returns (ret: int, crl: Crl?)
      requires Valid()
      modifies slots, `held, crls, `steps
      ensures Valid() && slots == old(slots) && crls == old(crls)
      ensures var m := Contents(old(slots[..]));
              if !locked || url == None || url.value !in m then
                && ret == 0 && crl == null && held == old(held) && slots[..] == old(slots[..])
                && steps == old(steps)
              else if now < m[url.value].nextUpdate then
                && ret == 1 && crl == m[url.value] && held == old(held) + multiset{m[url.value]}
                && slots[..] == old(slots[..]) && steps == old(steps)
              else
                && ret == 0 && crl == null && held == old(held) && Contents(slots[..]) == m - {url.value}
                && (forall later :: !Full(slots[..], later)) && steps == old(steps) + [Dropped(url.value, now)]
    {
      hide LegalRun, AfterRun;
      ret, crl := 0, null;
      if url == None || !locked {
        return;
      }
      ghost var dropped;
      dropped, crl := Search(url.value, now);
      if dropped {
        Log(Dropped(url.value, now));
      }
      ret := if crl == null then 0 else 1;
    }

    /** The loop over the slots. */
    method Search(url: Url, now: int) returns (ghost dropped: bool, crl: Crl?)
      requires Sound()
      modifies slots, `held, crls
      ensures Sound() && slots == old(slots) && crls == old(crls)
      ensures dropped <==> url in Contents(old(slots[..])) && !Contents(old(slots[..]))[url].ValidAt(now)
      ensures dropped ==> Contents(slots[..]) == Contents(old(slots[..])) - {url}
      ensures dropped ==> forall later :: !Full(slots[..], later)
      ensures !dropped ==> slots[..] == old(slots[..])
      ensures crl != null <==> url in Contents(slots[..])
      ensures crl != null ==> crl == Contents(slots[..])[url] && held == old(held) + multiset{crl}
      ensures crl == null ==> held == old(held)
    {
      hide WellKept, SlotsHolding, Contents;
      dropped, crl := false, null;
      ghost var es, m := slots[..], Contents(slots[..]);
      for n := 0 to slots.Length
        invariant Sound() && slots == old(slots) && crls == old(crls) && held == old(held)
        invariant forall i | n <= i < slots.Length :: slots[i] == es[i]
        invariant forall i | 0 <= i < n :: !IsFor(slots[i], url)
        invariant if dropped then
                    && url in m && !m[url].ValidAt(now) && Contents(slots[..]) == m - {url}
                    && exists i | 0 <= i < n :: slots[i].crl == null
                  else slots[..] == es
      {
        if IsFor(slots[n], url) {
          ContentsAt(slots[..], n);
          if slots[n].crl.ValidAt(now) {
            crl := Share(n);
            return;
          }
          Evict(n);
          assert slots[n].crl == null;
          dropped := true;
        }
      }
      if dropped {
        var i :| 0 <= i < slots.Length && slots[i].crl == null;
        assert slots[i] in slots[..];
      } else {
        NotInContents(slots[..], url);
      }
    }

    /** The list in slot `n`, which is the URL's own or an expired one, gives way to another. */
    method Replace(n: nat, crl: Crl?, url: Url)
      requires Sound() && n < slots.Length && Live(slots[n])
      requires crl != null ==> crl in held
      requires slots[n].url.value == url || url !in Contents(slots[..])
      modifies slots, `held, slots[n].crl`references
      ensures Sound() && held == if crl == null then old(held) else old(held) - multiset{crl}
      ensures Contents(slots[..]) == Updated(Contents(old(slots[..])), url, crl, old(slots[n]).url)
    {
      hide WellKept, Accounted, SlotsHolding, Contents;
      Evict(n);
      Store(n, crl, url);
    }

    /** Puts a list for a URL that has none in the first slot that is free or holds an expired list, or in a
        bigger array. */
    method StoreNew(crl: Crl?, url: Url, now: int, grown: bool) returns (ok: bool, ghost evicted: Option<Url>)
      requires Sound() && (crl != null ==> crl in held) && url !in Contents(slots[..])
      modifies `slots, slots, `held, crls
      ensures Sound() && crls == old(crls)
      ensures slots == old(slots) || fresh(slots)
      ensures ok <==> grown || !Full(old(slots[..]), now)
      ensures slots.Length == old(slots.Length) + (if ok && Full(old(slots[..]), now) then 10 else 0)
      ensures !ok ==> slots == old(slots) && slots[..] == old(slots[..]) && held == old(held)
      ensures ok ==> held == if crl == null then old(held) else old(held) - multiset{crl}
      ensures ok ==> Contents(slots[..]) == Updated(Contents(old(slots[..])), url, crl, evicted)
      ensures evicted.Some? ==>
                var m := Contents(old(slots[..]));
                evicted.value in m && evicted.value != url && !m[evicted.value].ValidAt(now)
    {
      ok, evicted := true, None;
      ghost var es := slots[..];
      UpdatedFresh(Contents(es), url, crl);
      hide WellKept, SlotsHolding, Contents, Updated;
      for n := 0 to slots.Length
        invariant Sound() && slots == old(slots) && crls == old(crls) && slots[..] == es && held == old(held)
        invariant forall i | 0 <= i < n :: es[i].crl != null && es[i].crl.ValidAt(now)
      {
        if slots[n].crl == null {
          Store(n, crl, url);
          assert es[n] in es;
          return;
        }
        if !slots[n].crl.ValidAt(now) {
          ContentsHasSlot(es, n);
          evicted := slots[n].url;
          Replace(n, crl, url);
          assert es[n] in es;
          return;
        }
      }
      if grown {
        var size := slots.Length;
        Grow();
        Store(size, crl, url);
      } else {
        ok := false;
      }
    }

    /** The slot with a list for the URL, or the number of slots. */
    method Find(url: Url) returns (n: nat)
      ensures n <= slots.Length && (n < slots.Length ==> IsFor(slots[n], url))
      ensures n == slots.Length ==> forall i | 0 <= i < slots.Length :: !IsFor(slots[i], url)
    {
      n := 0;
      while n < slots.Length && !IsFor(slots[n], url)
        invariant n <= slots.Length && forall i | 0 <= i < n :: !IsFor(slots[i], url)
      {
        n := n + 1;
      }
    }

    /** `save_cert_crl_memory`; `SavedMeans` spells out what it does. A valid list of another URL always survives.
        `url` is absent for a NULL URL; `locked`, `copied` and `grown` say whether the lock, memory for the URL and
        memory for a bigger array were to be had. */
    method Save(url: Option<Url>, crl: Crl?, now: int, locked: bool, copied: bool, grown: bool)
      returns (ret: int, ghost evicted: Option<Url>)
      requires Valid() && (crl != null ==> crl in held)
      modifies `slots, slots, `held, crls, `steps
      ensures Valid() && held == old(held) && crls == old(crls)
      ensures slots == old(slots) || fresh(slots)
      ensures SavedAs(old(Now()), Full(old(slots[..]), now), Now(), url, crl, now, locked, copied, grown, ret, evicted)
      ensures ret == 0 ==> slots == old(slots) && slots[..] == old(slots[..])
      ensures steps == if ret == 0 then old(steps) else old(steps) + [Saved(url.value, crl, evicted, now)]
    {
      hide WellKept, Accounted, SlotsHolding, Contents, Updated, LegalRun, AfterRun, Full;
      ret, evicted := 0, None;
      if url == None || !locked {
        return;
      }
      if crl != null {
        HeldLives(crl);
        UpRef(crl);
      }
      if copied {
        ret, evicted := Put(url.value, crl, now, grown);
      }
      if ret != 0 {
        Log(Saved(url.value, crl, evicted, now));
      } else {
        evicted := None;
        if crl != null { Free(crl); }
      }
    }

    /** The loops of `save_cert_crl_memory`: a list for the URL is replaced, a new one stored. The reference that comes
        with `crl` becomes the cache's. */
    method Put(url: Url, crl: Crl?, now: int, grown: bool) returns (ret: int, ghost evicted: Option<Url>)
      requires Sound() && (crl != null ==> crl in held)
      modifies `slots, slots, `held, crls
      ensures Sound() && crls == old(crls)
      ensures slots == old(slots) || fresh(slots)
      ensures ret == if url in Contents(old(slots[..])) then 2
                     else if grown || !Full(old(slots[..]), now) then 1
                     else 0
      ensures slots.Length == old(slots.Length) + (if ret == 1 && Full(old(slots[..]), now) then 10 else 0)
      ensures ret == 0 ==> slots == old(slots) && slots[..] == old(slots[..])
      ensures held == if ret == 0 || crl == null then old(held) else old(held) - multiset{crl}
      ensures ret != 0 ==>
                && Contents(slots[..]) == Updated(Contents(old(slots[..])), url, crl, evicted)
                && Legal(Contents(old(slots[..])), Saved(url, crl, evicted, now))
    {
      ghost var es := slots[..];
      var n := Find(url);
      if n < slots.Length {
        ContentsAt(es, n);
        hide Contents, WellKept, SlotsHolding;
        Replace(n, crl, url);
        return 2, Some(url);
      }
      NotInContents(es, url);
      hide Contents, WellKept, SlotsHolding;
      var ok;
      ok, evicted := StoreNew(crl, url, now, grown);
      ret := if ok then 1 else 0;
    }

    /** A list from a file or from the network, with one reference for the caller. */
    method Obtain() returns (c: Crl)
      requires Valid()
      modifies `crls, `held
      ensures Valid() && fresh(c) && crls == old(crls) + {c} && held == old(held) + multiset{c}
    {
      var nextUpdate: int := *;
      c := new Crl(nextUpdate);
      HoldingNone(slots[..], c);
      crls, held := crls + {c}, held + multiset{c};
    }

    /** The list for one distribution point, with a reference for the caller: from memory, else from disk or the
        network, in which case it is saved in memory, exactly if there is room or memory to be had. */
    method Fetch(url: Option<Url>, c: Circumstances) returns (crl: Crl?, ghost evicted: Option<Url>)
      requires Valid()
      modifies `slots, slots, `crls, `held, crls, `steps
      ensures Valid() && fresh(crls - old(crls)) && old(crls) <= crls && old(steps) <= steps
      ensures slots == old(slots) || fresh(slots)
      ensures held == if crl == null then old(held) else old(held) + multiset{crl}
      ensures Answers(old(Now()).lists, url, c, crl)
      ensures Now() == AfterFetch(old(Now()), url, c, crl, evicted) && Evictable(old(Now()).lists, url, c, evicted)
    {
      hide Valid, Full, NoRoom, AfterLoad, AfterFetch, Evictable, Now;
      crl := AskMemory(url, c);
      evicted := None;
      if url.Some? && crl == null && c.Elsewhere() {
        crl, evicted := FetchElsewhere(url, c, old(Now()));
      } else {
        OnlyLoaded(old(Now()), url, c, crl);
      }
    }

    lemma RoomIsSeen(now: int)
      requires Sound()
      ensures Full(slots[..], now) <==> NoRoom(Now(), now)
    {
      FullExactly(slots[..], now);
    }

    /** The memory is asked, if there is a URL. */
    method AskMemory(url: Option<Url>, c: Circumstances) returns (crl: Crl?)
      requires Valid()
      modifies slots, `held, crls, `steps
      ensures Valid() && slots == old(slots) && crls == old(crls) && old(steps) <= steps
      ensures crl == if InMemory(old(Now()).lists, url, c) then old(Now()).lists[url.value] else null
      ensures held == if crl == null then old(held) else old(held) + multiset{crl}
      ensures Now() == AfterLoad(old(Now()), url, c)
      ensures Full(slots[..], c.later) ==> Now() == old(Now())
      ensures Full(slots[..], c.later) <==> NoRoom(Now(), c.later)
    {
      hide WellKept, Accounted, SlotsHolding, Contents, LegalRun, AfterRun, Full, NoRoom;
      crl := null;
      if url.Some? {
        Missing(Now().lists, url.value);
        var ret;
        ret, crl := Load(url, c.now, c.locked);
      }
      RoomIsSeen(c.later);
    }

    /** Disk or network have a list; `v` is the cache before the memory was asked in vain. */
    method FetchElsewhere(url: Option<Url>, c: Circumstances, ghost v: View)
      returns (crl: Crl, ghost evicted: Option<Url>)
      requires Valid() && url.Some? && !InMemory(v.lists, url, c) && c.Elsewhere() && Now() == AfterLoad(v, url, c)
      requires Full(slots[..], c.later) ==> Now() == v
      requires Full(slots[..], c.later) <==> NoRoom(Now(), c.later)
      modifies `slots, slots, `crls, `held, crls, `steps
      ensures Valid() && fresh(crls - old(crls)) && old(crls) <= crls && old(steps) <= steps
      ensures slots == old(slots) || fresh(slots)
      ensures held == old(held) + multiset{crl}
      ensures Now() == AfterFetch(v, url, c, crl, evicted) && Evictable(v.lists, url, c, evicted)
    {
      hide WellKept, Accounted, SlotsHolding, Contents, LegalRun, AfterRun, Full, NoRoom, AfterFetch, InMemory,
           AfterLoad, Evictable, Valid, SavedAs, Now;
      ghost var v1, full := Now(), Full(slots[..], c.later);
      crl := Obtain();
      var saved;
      saved, evicted := Save(url, crl, c.later, c.lockedAgain, c.copied, c.grown);
      SavedAfterLoad(v, v1, Now(), full, url, c, crl, saved, evicted);
    }

    /** `load_crls_crldp`: asks the memory cache, then the disk, then the network, for every distribution point with
        a URL (section 6.3.3 of RFC 5280), and pushes what it gets on the caller's stack. `cs` are the circumstances
        under which the points are asked. Each result is a reference of the caller's: one the stack owns, or one that
        is lost because the stack could not grow. `views` are the cache before, between and after. */
    method LoadFromDistributionPoints(points: seq<Option<Url>>, cs: seq<Circumstances>)
      returns (count: nat, pushed: seq<Crl>, ghost results: seq<Crl?>, ghost views: seq<View>)
      requires Valid() && |cs| == |points|
      modifies `slots, slots, `crls, `held, crls, `steps
      ensures Valid() && old(crls) <= crls && old(steps) <= steps
      ensures |results| == |points| && |views| == |points| + 1
      ensures pushed == Chosen(results, cs, true)
      ensures count == |pushed| + |Chosen(results, cs, false)|
      ensures held == old(held) + multiset(pushed) + multiset(Chosen(results, cs, false))
      ensures views[0] == old(Now()) && views[|points|] == Now()
      ensures Answered(views, points, cs, results)
    {
      count, pushed, results, views := 0, [], [], [Now()];
      NothingAsked(views, held, points, cs);
      hide WellKept, Accounted, SlotsHolding, Contents, Full, NoRoom, LegalRun, AfterRun,
           Answers, Answered, AfterFetch, Evictable, Fetched, Tally, Chosen, Obtained;
      for i := 0 to |points|
        invariant Valid() && old(crls) <= crls && old(steps) <= steps
        invariant slots == old(slots) || fresh(slots)
        invariant fresh(crls - old(crls))
        invariant Inquired(old(held), held, old(Now()), Now(), points, cs, results, views, count, pushed)
        invariant |results| == i
      {
        ghost var before, held' := Now(), held;
        var crl, evicted := Fetch(points[i], cs[i]);
        FetchedWith(before, Now(), points[i], cs[i], crl, evicted);
        InquiredOneMore(old(held), held', old(Now()), before, points, cs, results, views, count, pushed, crl, Now());
        results, views := results + [crl], views + [Now()];
        pushed := if crl != null && cs[i].pushed then pushed + [crl] else pushed;
        count := if crl != null then count + 1 else count;
      }
      TallyMeans(old(held), held, results, cs, count, pushed);
    }

    /** `clear_crl_cache`: gives up every reference of the cache's. */
    method Clear()
      requires Valid()
      modifies `slots, slots, crls, `steps
      ensures Valid() && slots.Length == 0 && Contents(slots[..]) == map[] && held == old(held)
      ensures steps == old(steps) + [Cleared]
    {
      EmptySlots();
      slots := new Entry[0];
      assert slots[..] == [];
      Log(Cleared);
    }

    /** The loop over the slots. */
    method EmptySlots()
      requires Sound()
      modifies slots, crls
      ensures Accounted(crls, [], held)
    {
      for n := 0 to slots.Length
        invariant Sound()
        invariant forall i | 0 <= i < n :: slots[i].crl == null
      {
        if slots[n].crl != null {
          assert Live(slots[n]);
          Evict(n);
        }
      }
      ghost var es := slots[..];
      assert forall c <- crls :: SlotsHolding([], c) == SlotsHolding(es, c) by {
        forall c <- crls ensures SlotsHolding([], c) == SlotsHolding(es, c) {
          HoldingAfterGrowing([], es, c);
          assert [] + es == es;
        }
      }
    }

    /** What `Load` can find for a URL is the last list saved for it. */
    lemma OnlyLastSavedIsThere(url: Url)
      requires Valid() && url in Contents(slots[..])
      ensures exists k: nat :: LastSaved(steps, url, k) && steps[k].crl == Contents(slots[..])[url]
    {
      OnlyLastSaved(steps, url);
    }

    /** Whatever has been saved and loaded for other URLs since, and however the cache has grown, the list last saved
        for a URL is still there for as long as it is valid. */
    lemma LastSavedIsThere(k: nat, now: int)
      requires Valid() && k < |steps| && steps[k].Saved? && steps[k].crl != null && steps[k].crl.ValidAt(now)
      requires forall s <- steps[k+1..] :: !s.Cleared? && s.now <= now && (s.Saved? ==> s.url != steps[k].url)
      ensures steps[k].url in Contents(slots[..]) && Contents(slots[..])[steps[k].url] == steps[k].crl
    {
      LastSavedStays(steps, k, now);
    }
  }

  lemma {:induction false} HoldingNone(es: seq<Entry>, crl: Crl)
    requires forall i | 0 <= i < |es| :: es[i].crl != crl
    ensures SlotsHolding(es, crl) == 0
  {
    if es != [] {
      HoldingNone(es[..|es|-1], crl);
    }
  }

  // ----- what a user of the cache sees -----

  /** The lists, and the number of slots for them. */
  datatype View = View(lists: map<Url, Crl>, capacity: nat)

  /** Every slot is needed for a valid list. */
  ghost predicate NoRoom(v: View, now: int) {
    |v.lists| == v.capacity && forall u <- v.lists :: v.lists[u].ValidAt(now)
  }

  lemma {:induction false} UrlsCount(es: seq<Entry>)
    requires WellKept(es)
    ensures |Urls(es)| <= |es|
    ensures |Urls(es)| == |es| <==> forall i | 0 <= i < |es| :: Live(es[i])
  {
    if es != [] {
      var last := |es| - 1;
      var before := es[..last];
      UrlsCount(before);
      assert forall i | 0 <= i < last :: es[i] == before[i];
      if Live(es[last]) {
        var url := es[last].url.value;
        assert url !in Urls(before);
        assert Urls(es) == Urls(before) + {url};
      } else {
        assert Urls(es) == Urls(before);
      }
    }
  }

  /** Whether there is room can be seen from outside. */
  lemma FullExactly(es: seq<Entry>, now: int)
    requires WellKept(es)
    ensures Full(es, now) <==> NoRoom(View(Contents(es), |es|), now)
  {
    UrlsCount(es);
    var m := Contents(es);
    assert m.Keys == Urls(es);
    assert |m| == |m.Keys|;
    if Full(es, now) {
      forall i | 0 <= i < |es| ensures Live(es[i]) { assert es[i] in es; }
      forall u <- m ensures m[u].ValidAt(now) { assert es[SlotFor(es, u)] in es; }
    }
    if NoRoom(View(m, |es|), now) {
      forall e <- es ensures e.crl != null && e.crl.ValidAt(now) {
        var i :| 0 <= i < |es| && es[i] == e;
        assert Live(es[i]);
        ContentsAt(es, i);
      }
    }
  }

  // ----- distribution points -----

  /** How the world treats the request for one distribution point: the clock and the lock when the memory is asked,
      whether disk or network have a list, the clock, the lock and the allocations when it is saved, and whether the
      caller's stack can grow. */
  datatype Circumstances = Circumstances(now: int, locked: bool, disk: bool, web: bool,
                                         later: int, lockedAgain: bool, copied: bool, grown: bool, pushed: bool)
  {
    predicate Elsewhere() {
      disk || web
    }
  }

  /** The memory has a valid list for the URL, and the lock could be taken. */
  ghost predicate InMemory(m: map<Url, Crl>, url: Option<Url>, c: Circumstances) {
    url.Some? && c.locked && url.value in m && m[url.value].ValidAt(c.now)
  }

  /** The answer to one distribution point: the memory's list if it is still valid; else something exactly if there is
      a URL and disk or network have a list for it. */
  ghost predicate Answers(m: map<Url, Crl>, url: Option<Url>, c: Circumstances, crl: Crl?) {
    if InMemory(m, url, c) then crl == m[url.value] else crl != null <==> url.Some? && c.Elsewhere()
  }

  /** A list from elsewhere is to be saved in memory, and can be. */
  ghost predicate CanSave(v: View, url: Option<Url>, c: Circumstances) {
    && url.Some? && !InMemory(v.lists, url, c) && c.Elsewhere()
    && c.lockedAgain && c.copied && (c.grown || url.value in v.lists || !NoRoom(v, c.later))
  }

  /** What asking for one distribution point leaves in memory: the list if it is saved, for which the array grows
      exactly if there is no room; and no expired list for the URL, if the lock could be taken. */
  ghost function AfterFetch(v: View, url: Option<Url>, c: Circumstances, crl: Crl?, evicted: Option<Url>): View {
    if CanSave(v, url, c) then
      View(Updated(v.lists, url.value, crl, evicted),
           if url.value !in v.lists && NoRoom(v, c.later) then v.capacity + 10 else v.capacity)
    else if url.Some? && c.locked && !InMemory(v.lists, url, c) then v.(lists := v.lists - {url.value})
    else v
  }

  /** What asking the memory alone leaves there. */
  ghost function AfterLoad(v: View, url: Option<Url>, c: Circumstances): View {
    if url.Some? && c.locked && !InMemory(v.lists, url, c) then v.(lists := v.lists - {url.value}) else v
  }

  /** What saving a list does, and returns: 2 if it replaces one for the same URL, 1 if it is new, 0 if it is not saved.
      `full` says that no slot is free or holds an expired list; then the array has to grow. Nothing but an expired list
      or the URL's own gives way. */
  ghost predicate SavedAs(v: View, full: bool, v': View, url: Option<Url>, crl: Crl?, now: int,
                          locked: bool, copied: bool, grown: bool, ret: int, evicted: Option<Url>)
  {
    && ret == (if url == None || !locked || !copied then 0
               else if url.value in v.lists then 2
               else if grown || !full then 1
               else 0)
    && v'.capacity == v.capacity + (if ret == 1 && full then 10 else 0)
    && (ret == 0 ==> v' == v && evicted == None)
    && (ret != 0 ==>
          && v'.lists == Updated(v.lists, url.value, crl, evicted)
          && Legal(v.lists, Saved(url.value, crl, evicted, now)))
  }

  /** What this says URL by URL. */
  lemma SavedMeans(v: View, full: bool, v': View, url: Option<Url>, crl: Crl?, now: int,
                   locked: bool, copied: bool, grown: bool, ret: int, evicted: Option<Url>)
    requires SavedAs(v, full, v', url, crl, now, locked, copied, grown, ret, evicted)
    ensures ret == 2 <==> url.Some? && locked && copied && url.value in v.lists
    ensures ret == 1 <==> url.Some? && locked && copied && url.value !in v.lists && (grown || !full)
    ensures ret == 0 <==> v' == v && ret !in {1, 2}
    ensures ret in {1, 2} && crl != null ==> url.value in v'.lists && v'.lists[url.value] == crl
    ensures ret in {1, 2} && crl == null ==> url.value !in v'.lists
    ensures ret == 1 && full ==> v'.capacity == v.capacity + 10
    ensures !(ret == 1 && full) ==> v'.capacity == v.capacity
    ensures forall u <- v.lists | Some(u) != url && now < v.lists[u].nextUpdate ::
              u in v'.lists && v'.lists[u] == v.lists[u]
    ensures forall u <- v'.lists | Some(u) != url :: u in v.lists && v'.lists[u] == v.lists[u]
    ensures forall u <- v.lists, w <- v.lists | u != w && Some(u) != url && Some(w) != url ::
              u in v'.lists || w in v'.lists
  {
    if url.Some? {
      var kept := v.lists - {url.value};
      assert forall u <- v.lists :: Some(u) != url ==> u in kept;
    }
  }

  lemma Missing(m: map<Url, Crl>, url: Url)
    ensures url !in m ==> m - {url} == m
  {}

  lemma OnlyLoaded(v: View, url: Option<Url>, c: Circumstances, crl: Crl?)
    requires InMemory(v.lists, url, c) || url == None || !c.Elsewhere()
    ensures AfterFetch(v, url, c, crl, None) == AfterLoad(v, url, c) && Evictable(v.lists, url, c, None)
  {}

  /** The memory had no valid list: what `Save` does behind `Load`, in terms of the cache before both. `full` says that
      no slot is free or holds an expired list when the list is saved. */
  lemma SavedAfterLoad(v: View, v1: View, v2: View, full: bool, url: Option<Url>, c: Circumstances, crl: Crl?,
                       saved: int, evicted: Option<Url>)
    requires url.Some? && !InMemory(v.lists, url, c) && c.Elsewhere() && v1 == AfterLoad(v, url, c)
    requires full ==> v1 == v
    requires v1 == v ==> full == NoRoom(v, c.later)
    requires SavedAs(v1, full, v2, url, crl, c.later, c.lockedAgain, c.copied, c.grown, saved, evicted)
    ensures v2 == AfterFetch(v, url, c, crl, evicted) && Evictable(v.lists, url, c, evicted)
  {
    hide NoRoom;
    UpdatedTwice(v.lists, url.value, crl, evicted);
    if url.value !in v.lists { assert v.lists - {url.value} == v.lists; }
    hide Updated;
  }

  lemma UpdatedTwice(m: map<Url, Crl>, url: Url, crl: Crl?, evicted: Option<Url>)
    ensures Updated(m - {url}, url, crl, evicted) == Updated(m, url, crl, evicted)
  {}

  /** Only an expired list gives way to one of another URL. */
  ghost predicate Evictable(m: map<Url, Crl>, url: Option<Url>, c: Circumstances, evicted: Option<Url>) {
    evicted.Some? && evicted != url ==> evicted.value in m && !m[evicted.value].ValidAt(c.later)
  }

  /** One distribution point has been asked for, with the cache as in `v` before and as in `v'` afterwards. */
  ghost predicate Fetched(v: View, v': View, url: Option<Url>, c: Circumstances, crl: Crl?) {
    && Answers(v.lists, url, c, crl)
    && exists evicted: Option<Url> :: v' == AfterFetch(v, url, c, crl, evicted) && Evictable(v.lists, url, c, evicted)
  }

  lemma FetchedWith(v: View, v': View, url: Option<Url>, c: Circumstances, crl: Crl?, evicted: Option<Url>)
    requires Answers(v.lists, url, c, crl) && Evictable(v.lists, url, c, evicted)
    requires v' == AfterFetch(v, url, c, crl, evicted)
    ensures Fetched(v, v', url, c, crl)
  {}

  /** What this says, case by case. */
  lemma FetchedMeans(v: View, v': View, url: Option<Url>, c: Circumstances, crl: Crl?)
    requires Fetched(v, v', url, c, crl)
    ensures url == None ==> crl == null && v' == v
    ensures url.Some? && c.locked && url.value in v.lists && c.now < v.lists[url.value].nextUpdate ==>
              crl == v.lists[url.value] && v' == v
    ensures url.Some? && !(c.locked && url.value in v.lists && c.now < v.lists[url.value].nextUpdate) ==>
              && (crl != null <==> c.disk || c.web)
              && var room := || c.grown || url.value in v.lists || |v.lists| != v.capacity
                             || exists u <- v.lists :: v.lists[u].nextUpdate <= c.later;
                 if crl != null && c.lockedAgain && c.copied && room then
                   url.value in v'.lists && v'.lists[url.value] == crl
                 else v'.lists == if c.locked then v.lists - {url.value} else v.lists
  {
    var evicted: Option<Url> :| v' == AfterFetch(v, url, c, crl, evicted) && Evictable(v.lists, url, c, evicted);
  }

  /** The array grows only if there is no room, and other URLs lose nothing but expired lists. */
  lemma FetchedKeeps(v: View, v': View, url: Option<Url>, c: Circumstances, crl: Crl?)
    requires Fetched(v, v', url, c, crl)
    ensures v'.capacity == v.capacity || v'.capacity == v.capacity + 10
    ensures v'.capacity == v.capacity + 10 ==>
              && c.grown && url.Some? && url.value !in v.lists && |v.lists| == v.capacity
              && forall u <- v.lists :: c.later < v.lists[u].nextUpdate
    ensures forall u <- v.lists | Some(u) != url && c.later < v.lists[u].nextUpdate ::
              u in v'.lists && v'.lists[u] == v.lists[u]
    ensures forall u <- v'.lists | Some(u) != url :: u in v.lists && v'.lists[u] == v.lists[u]
  {
    hide Answers;
    var evicted: Option<Url> :| v' == AfterFetch(v, url, c, crl, evicted) && Evictable(v.lists, url, c, evicted);
  }

  /** Every point has been asked for in turn. */
  ghost predicate Answered(views: seq<View>, points: seq<Option<Url>>, cs: seq<Circumstances>, results: seq<Crl?>)
    requires |results| <= |points| == |cs| && |views| == |results| + 1
  {
    forall i | 0 <= i < |results| :: Fetched(views[i], views[i+1], points[i], cs[i], results[i])
  }

  /** Some points have been asked for: what the caller holds now and held `before`, the cache now and at the `start`,
      the results, and what was counted and pushed. */
  ghost predicate Inquired(before: multiset<Crl>, held: multiset<Crl>, start: View, now: View,
                           points: seq<Option<Url>>, cs: seq<Circumstances>, results: seq<Crl?>, views: seq<View>,
                           count: nat, pushed: seq<Crl>)
  {
    && |results| <= |points| == |cs| && |views| == |results| + 1
    && views[0] == start && views[|results|] == now
    && Tally(before, held, results, cs, count, pushed) && Answered(views, points, cs, results)
  }

  lemma NothingAsked(views: seq<View>, held: multiset<Crl>, points: seq<Option<Url>>, cs: seq<Circumstances>)
    requires |points| == |cs| && |views| == 1
    ensures Inquired(held, held, views[0], views[0], points, cs, [], views, 0, [])
  {}

  lemma InquiredOneMore(before: multiset<Crl>, held: multiset<Crl>, start: View, now: View,
                        points: seq<Option<Url>>, cs: seq<Circumstances>, results: seq<Crl?>, views: seq<View>,
                        count: nat, pushed: seq<Crl>, crl: Crl?, now': View)
    requires Inquired(before, held, start, now, points, cs, results, views, count, pushed) && |results| < |points|
    requires Fetched(now, now', points[|results|], cs[|results|], crl)
    ensures Inquired(before, if crl == null then held else held + multiset{crl}, start, now',
                     points, cs, results + [crl], views + [now'],
                     if crl != null then count + 1 else count,
                     if crl != null && cs[|results|].pushed then pushed + [crl] else pushed)
  {
    hide Fetched, Tally;
    TallySnoc(before, held, results, cs, count, pushed, crl);
  }

  /** With the lock at hand, whatever is asked for and saved, a list in memory stays there and answers for its URL for
      as long as it is valid. */
  lemma {:induction false} InMemoryThroughout(views: seq<View>, points: seq<Option<Url>>,
                                              cs: seq<Circumstances>, results: seq<Crl?>, url: Url, n: nat)
    requires |results| <= |points| == |cs| && |views| == |results| + 1 && n <= |results|
    requires Answered(views, points, cs, results)
    requires url in views[0].lists
    requires forall c <- cs[..n] ::
               c.locked && views[0].lists[url].ValidAt(c.now) && views[0].lists[url].ValidAt(c.later)
    ensures url in views[n].lists && views[n].lists[url] == views[0].lists[url]
    ensures forall i | 0 <= i < n && points[i] == Some(url) :: results[i] == views[0].lists[url]
  {
    if n > 0 {
      assert cs[n-1] in cs[..n];
      assert cs[..n] == cs[..n-1] + [cs[n-1]];
      InMemoryThroughout(views, points, cs, results, url, n - 1);
      assert Fetched(views[n-1], views[n], points[n-1], cs[n-1], results[n-1]);
    }
  }

  /** The results that are lists. */
  ghost function Obtained(results: seq<Crl?>): multiset<Crl> {
    if results == [] then multiset{} else
      var last := |results| - 1;
      if results[last] == null then Obtained(results[..last]) else Obtained(results[..last]) + multiset{results[last]}
  }

  /** The results whose push went as `kept` says. */
  ghost function Chosen(results: seq<Crl?>, cs: seq<Circumstances>, kept: bool): seq<Crl>
    requires |results| <= |cs|
  {
    if results == [] then [] else
      var last := |results| - 1;
      var before := Chosen(results[..last], cs, kept);
      if results[last] != null && cs[last].pushed == kept then before + [results[last]] else before
  }

  /** They are in the order of the results. */
  lemma {:induction false} ChosenInOrder(results: seq<Crl?>, cs: seq<Circumstances>, kept: bool)
    returns (places: seq<nat>)
    requires |results| <= |cs|
    ensures |places| == |Chosen(results, cs, kept)|
    ensures forall k | 0 <= k < |places| ::
              && places[k] < |results| && results[places[k]] == Chosen(results, cs, kept)[k]
              && cs[places[k]].pushed == kept
    ensures forall k, l | 0 <= k < l < |places| :: places[k] < places[l]
    ensures forall i | 0 <= i < |results| && results[i] != null && cs[i].pushed == kept :: i in places
  {
    places := [];
    if results != [] {
      var last := |results| - 1;
      var before := ChosenInOrder(results[..last], cs, kept);
      places := before;
      if results[last] != null && cs[last].pushed == kept {
        places := before + [last];
      }
    }
  }

  /** The books after `results`: what the caller holds, how much was counted, and what was pushed. */
  ghost predicate Tally(before: multiset<Crl>, held: multiset<Crl>, results: seq<Crl?>, cs: seq<Circumstances>,
                        count: nat, pushed: seq<Crl>)
    requires |results| <= |cs|
  {
    held == before + Obtained(results) && count == |Obtained(results)| && pushed == Chosen(results, cs, true)
  }

  lemma TallySnoc(before: multiset<Crl>, held: multiset<Crl>, results: seq<Crl?>, cs: seq<Circumstances>,
                  count: nat, pushed: seq<Crl>, crl: Crl?)
    requires |results| < |cs|
    requires Tally(before, held, results, cs, count, pushed)
    ensures Tally(before, if crl == null then held else held + multiset{crl}, results + [crl], cs,
                  if crl != null then count + 1 else count,
                  if crl != null && cs[|results|].pushed then pushed + [crl] else pushed)
  {
    ResultsSnoc(results, cs, crl);
  }

  lemma TallyMeans(before: multiset<Crl>, held: multiset<Crl>, results: seq<Crl?>, cs: seq<Circumstances>,
                   count: nat, pushed: seq<Crl>)
    requires |results| == |cs| && Tally(before, held, results, cs, count, pushed)
    ensures pushed == Chosen(results, cs, true)
    ensures count == |pushed| + |Chosen(results, cs, false)|
    ensures held == before + multiset(pushed) + multiset(Chosen(results, cs, false))
  {
    ObtainedSplits(results, cs);
  }

  lemma ResultsSnoc(results: seq<Crl?>, cs: seq<Circumstances>, crl: Crl?)
    requires |results| < |cs|
    ensures Chosen(results + [crl], cs, true) ==
            if crl != null && cs[|results|].pushed then Chosen(results, cs, true) + [crl] else Chosen(results, cs, true)
    ensures Obtained(results + [crl]) == if crl == null then Obtained(results) else Obtained(results) + multiset{crl}
  {
    assert (results + [crl])[..|results|] == results;
  }

  /** Every list obtained was either pushed or lost. */
  lemma {:induction false} ObtainedSplits(results: seq<Crl?>, cs: seq<Circumstances>)
    requires |results| <= |cs|
    ensures Obtained(results) == multiset(Chosen(results, cs, true)) + multiset(Chosen(results, cs, false))
    ensures |Obtained(results)| == |Chosen(results, cs, true)| + |Chosen(results, cs, false)|
  {
    if results != [] {
      ObtainedSplits(results[..|results| - 1], cs);
    }
  }

  /** The map after saving: the URL has the new list, if any, and the list of `evicted` is gone. */
  ghost function Updated(m: map<Url, Crl>, url: Url, crl: Crl?, evicted: Option<Url>): map<Url, Crl> {
    var kept := m - {url} - (if evicted == None then {} else {evicted.value});
    if crl == null then kept else kept[url := crl]
  }

  lemma UpdatedFresh(m: map<Url, Crl>, url: Url, crl: Crl?)
    requires url !in m
    ensures Updated(m, url, crl, None) == if crl == null then m else m[url := crl]
  {
    assert m - {url} == m;
  }

  /** No slot is free or holds an expired list. */
  ghost predicate Full(es: seq<Entry>, now: int) {
    forall e <- es :: e.crl != null && e.crl.ValidAt(now)
  }

  // ----- over a whole run -----

  /** What a call did to the map: a successful save, a load that dropped an expired list, or a clearing. */
  datatype Step =
    | Saved(url: Url, crl: Crl?, evicted: Option<Url>, now: int)
    | Dropped(url: Url, now: int)
    | Cleared

  /** What steps the cache takes: to save a list or to drop an expired one never costs another URL a valid list. */
  ghost predicate Legal(m: map<Url, Crl>, s: Step) {
    match s
    case Saved(url, _, evicted, now) =>
      evicted.Some? ==> evicted.value in m && (evicted.value == url || !m[evicted.value].ValidAt(now))
    case Dropped(url, now) => url in m && !m[url].ValidAt(now)
    case Cleared => true
  }

  ghost function After(m: map<Url, Crl>, s: Step): map<Url, Crl> {
    match s
    case Saved(url, crl, evicted, _) => Updated(m, url, crl, evicted)
    case Dropped(url, _) => m - {url}
    case Cleared => map[]
  }

  ghost function AfterRun(steps: seq<Step>): map<Url, Crl> {
    if steps == [] then map[] else
      var last := |steps| - 1;
      After(AfterRun(steps[..last]), steps[last])
  }

  ghost predicate LegalRun(steps: seq<Step>) {
    steps == [] ||
    (var last := |steps| - 1;
     LegalRun(steps[..last]) && Legal(AfterRun(steps[..last]), steps[last]))
  }

  lemma RunSnoc(steps: seq<Step>, s: Step)
    requires LegalRun(steps) && Legal(AfterRun(steps), s)
    ensures LegalRun(steps + [s]) && AfterRun(steps + [s]) == After(AfterRun(steps), s)
  {
    assert (steps + [s])[..|steps|] == steps;
  }

  lemma StepSaves(m: map<Url, Crl>, s: Step)
    requires s.Saved? && s.crl != null
    ensures s.url in After(m, s) && After(m, s)[s.url] == s.crl
  {}

  lemma StepKeeps(m: map<Url, Crl>, s: Step, url: Url, now: int)
    requires Legal(m, s) && url in m && m[url].ValidAt(now)
    requires !s.Cleared? && s.now <= now && (s.Saved? ==> s.url != url)
    ensures url in After(m, s) && After(m, s)[url] == m[url]
  {}

  /** Whatever is saved and loaded for other URLs meanwhile, the list last saved for a URL is still there for as long
      as it is valid. */
  lemma {:induction false} LastSavedStays(steps: seq<Step>, k: nat, now: int)
    requires LegalRun(steps)
    requires k < |steps| && steps[k].Saved? && steps[k].crl != null && steps[k].crl.ValidAt(now)
    requires forall s <- steps[k+1..] :: !s.Cleared? && s.now <= now && (s.Saved? ==> s.url != steps[k].url)
    ensures steps[k].url in AfterRun(steps) && AfterRun(steps)[steps[k].url] == steps[k].crl
    decreases |steps|
  {
    hide Legal, After;
    var last := |steps| - 1;
    if k < last {
      var before := steps[..last];
      assert steps[last] in steps[k+1..];
      assert steps[k+1..] == before[k+1..] + [steps[last]];
      LastSavedStays(before, k, now);
      StepKeeps(AfterRun(before), steps[last], steps[k].url, now);
    } else {
      StepSaves(AfterRun(steps[..last]), steps[last]);
    }
  }

  /** The list was the last one saved for the URL, and since then the URL has not been given up. */
  ghost predicate LastSaved(steps: seq<Step>, url: Url, k: nat) {
    && k < |steps| && steps[k].Saved? && steps[k].url == url && steps[k].crl != null
    && forall j | k < j < |steps| :: !steps[j].Cleared? && steps[j].url != url
  }

  /** Conversely, any list in the cache is the last one saved for its URL. */
  lemma {:induction false} OnlyLastSaved(steps: seq<Step>, url: Url)
    requires url in AfterRun(steps)
    ensures exists k: nat :: LastSaved(steps, url, k) && steps[k].crl == AfterRun(steps)[url]
    decreases |steps|
  {
    var last := |steps| - 1;
    if steps[last].Saved? && steps[last].url == url {
      assert LastSaved(steps, url, last);
    } else {
      var before := steps[..last];
      OnlyLastSaved(before, url);
      var k: nat :| LastSaved(before, url, k) && before[k].crl == AfterRun(before)[url];
      assert forall j | 0 <= j < last :: steps[j] == before[j];
      assert LastSaved(steps, url, k);
    }
  }
}
