/**
 * The accessor and attribute side-tables of the V8 shim
 * (`v8::internal::AccessorStorage` and `v8::internal::AttributeStorage`).
 *
 * Each table maps a property name to metadata that owns a persistent root.
 * The hash table behind `mStore` is a Dafny `map`; its bucket structure,
 * pointer validity and initial capacity are not modelled.  A `Range` over
 * the table is the set of its (name, value) pairs, because the hash
 * table's iteration order is not part of the model.
 *
 * The object invariant `Valid()` says: the table was initialised, every
 * stored root is non-empty and not yet disposed, and no root is shared by
 * two names.  The destructors are modelled twice: as written (their loops
 * never advance the range) and with the missing `popFront()` added.
 */
module InternalStorage {
  import opened Handles

  /** A property name (`jsid`). */
  type Jsid = int

  /** Address of a native accessor callback; 0 is NULL. */
  type Callback = nat

  /** A `PropertyAttribute` bit set (ReadOnly, DontEnum, DontDelete). */
  type PropertyAttribute = nat

  datatype PropertyData = PropertyData(getter: Callback, setter: Callback, data: Persistent, attribute: PropertyAttribute)

  /** Removing a present key shrinks a map by one. */
  lemma RemoveCard<K, V>(m: map<K, V>, k: K)
    requires k in m
    ensures |m - {k}| == |m| - 1
  {
    assert (m - {k}).Keys == m.Keys - {k};
    assert m.Keys == (m.Keys - {k}) + {k};
  }

  /** A root a table may own: non-empty and not yet disposed. */
  ghost predicate Live(p: Persistent)
    reads p
  {
    !p.IsEmpty() && p.disposals == 0
  }

  /** The table owns the roots of `m`: each is live and none is shared by two names. */
  ghost predicate Owns(m: map<Jsid, Persistent>)
    reads m.Values
  {
    && (forall k :: k in m ==> Live(m[k]))
    && (forall k, k' :: k in m && k' in m && m[k] == m[k'] ==> k == k')
  }

  /** Dropping a name keeps ownership of the other roots, and none of them is the dropped root. */
  lemma OwnsRemove(m: map<Jsid, Persistent>, k: Jsid)
    requires Owns(m) && k in m
    ensures Owns(m - {k})
    ensures m[k] !in (m - {k}).Values
  {
    forall k' | k' in m - {k}
      ensures (m - {k})[k'] != m[k]
    {
      assert k' != k;
    }
  }

  /** Adding a live root not already owned, under a new name, keeps ownership. */
  lemma OwnsAdd(m: map<Jsid, Persistent>, k: Jsid, p: Persistent)
    requires Owns(m) && k !in m
    requires Live(p) && p !in m.Values
    ensures Owns(m[k := p])
  {
  }

  /** The roots held by the accessor entries of `m`. */
  ghost function EntryRoots(m: map<Jsid, PropertyData>): set<Persistent> {
    set k | k in m :: m[k].data
  }

  /** The table owns the roots of the entries of `m`: each is live and none is shared by two names. */
  ghost predicate OwnsEntries(m: map<Jsid, PropertyData>)
    reads EntryRoots(m)
  {
    && (forall k :: k in m ==> Live(m[k].data))
    && (forall k, k' :: k in m && k' in m && m[k].data == m[k'].data ==> k == k')
  }

  lemma OwnsEntriesRemove(m: map<Jsid, PropertyData>, k: Jsid)
    requires OwnsEntries(m) && k in m
    ensures OwnsEntries(m - {k})
    ensures m[k].data !in EntryRoots(m - {k})
  {
    forall k' | k' in m - {k}
      ensures (m - {k})[k'].data != m[k].data
    {
      assert k' != k;
    }
  }

  lemma OwnsEntriesAdd(m: map<Jsid, PropertyData>, k: Jsid, e: PropertyData)
    requires OwnsEntries(m) && k !in m
    requires Live(e.data) && e.data !in EntryRoots(m)
    ensures OwnsEntries(m[k := e])
  {
  }

  class AccessorStorage {
    /** `mStore.initialized()`. */
    var initialized: bool
    var mStore: map<Jsid, PropertyData>

    /** The roots owned by the table. */
    ghost function Roots(): set<Persistent>
      reads this
    {
      EntryRoots(mStore)
    }

    ghost predicate Valid()
      reads this, Roots()
    {
      initialized && OwnsEntries(mStore)
    }

    constructor ()
      ensures Valid()
      ensures mStore == map[]
    {
      initialized := true;
      mStore := map[];
    }

    /**
     * Register or replace the accessor for `name`.  A previous entry's root
     * is disposed, the entry removed, the name looked up again and the new
     * entry added with a fresh root of `data`.
     */
    method AddAccessor(name: Jsid, getter: Callback, setter: Callback, data: Handle, attribute: PropertyAttribute)
      requires Valid()
      requires !data.IsEmpty()
      modifies this, Roots()
      ensures Valid()
      ensures name in mStore
      ensures mStore[name].getter == getter && mStore[name].setter == setter
      ensures mStore[name].attribute == attribute
      ensures fresh(mStore[name].data) && mStore[name].data.handle == data
      ensures mStore == old(mStore)[name := mStore[name]]
      ensures |mStore| == if name in old(mStore) then old(|mStore|) else old(|mStore|) + 1
      ensures name in old(mStore) ==> old(mStore[name].data).disposals == 1
      ensures forall p :: p in old(Roots()) && p.disposals != old(p.disposals) ==>
                name in old(mStore) && p == old(mStore[name].data)
    {
      var root := new Persistent.New(data);
      var container := PropertyData(getter, setter, root, attribute);
      var found := name in mStore;  // lookupForAdd
      if found {
        var previous := mStore[name].data;
        assert !previous.IsEmpty();
        OwnsEntriesRemove(mStore, name);
        RemoveCard(mStore, name);
        previous.Dispose();
        mStore := mStore - {name};  // remove(slot)
        found := name in mStore;  // lookupForAdd again
      }
      assert !found;
      OwnsEntriesAdd(mStore, name, container);
      mStore := mStore[name := container];  // add(slot, name, container)
    }

    /** The entry stored for `name`; the name must be present. */
    function Get(name: Jsid): (r: PropertyData)
      reads this, Roots()
      requires Valid()
      requires name in mStore
      ensures Live(r.data)
      ensures r.data in Roots()
    {
      mStore[name]
    }

    /** The range of all entries; reading it changes nothing. */
    function All(): (r: set<(Jsid, PropertyData)>)
      reads this
      requires initialized
      ensures forall k :: k in mStore ==> (k, mStore[k]) in r
      ensures forall e :: e in r ==> e.0 in mStore && mStore[e.0] == e.1
    {
      set k | k in mStore :: (k, mStore[k])
    }

    /**
     * The destructor's loop as written, run for `rounds` iterations.  On
     * an empty table the loop ends at once.  Otherwise the range is never
     * popped, so it stays non-empty and its front entry's root is disposed
     * again in every round: the loop cannot end.
     */
    method DestroyAsWritten(rounds: nat) returns (rangeEmpty: bool)
      requires Valid()
      modifies Roots()
      ensures rangeEmpty <==> mStore == map[]
      ensures mStore != map[] ==>
                exists k :: k in mStore && mStore[k].data.disposals == rounds &&
                  forall k' :: k' in mStore && k' != k ==> mStore[k'].data.disposals == 0
    {
      var r := All();
      if mStore != map[] {
        var someKey :| someKey in mStore;
        assert (someKey, mStore[someKey]) in r;
      }
      if r != {} {
        var front :| front in r;  // r.front(): the same entry every round
        var i := 0;
        while i < rounds
          invariant 0 <= i <= rounds
          invariant r == All() && front in r
          invariant front.1.data.disposals == i
          invariant forall k, k' :: k in mStore && k' in mStore && mStore[k].data == mStore[k'].data ==> k == k'
          invariant forall k' :: k' in mStore && k' != front.0 ==> mStore[k'].data.disposals == 0
        {
          assert !front.1.data.IsEmpty();
          front.1.data.Dispose();
          i := i + 1;
        }
        assert front.0 in mStore;
      }
      rangeEmpty := r == {};
    }

    /** The destructor with `popFront()` added: every owned root is disposed exactly once. */
    method Destroy()
      requires Valid()
      modifies Roots()
      ensures forall p :: p in old(Roots()) ==> p.disposals == 1
    {
      var r := All();
      while r != {}
        invariant r <= All()
        invariant forall k :: k in mStore ==>
                    mStore[k].data.disposals == if (k, mStore[k]) in r then 0 else 1
        decreases |r|
      {
        var front :| front in r;
        assert !front.1.data.IsEmpty();
        front.1.data.Dispose();
        r := r - {front};  // popFront
      }
    }
  }

  class AttributeStorage {
    /** `mStore.initialized()`. */
    var initialized: bool
    var mStore: map<Jsid, Persistent>

    /** The roots owned by the table. */
    ghost function Roots(): set<Persistent>
      reads this
    {
      mStore.Values
    }

    ghost predicate Valid()
      reads this, Roots()
    {
      initialized && Owns(mStore)
    }

    constructor ()
      ensures Valid()
      ensures mStore == map[]
    {
      initialized := true;
      mStore := map[];
    }

    /** Register or replace the attribute value for `name`, disposing a previous root first. */
    method AddAttribute(name: Jsid, data: Handle)
      requires Valid()
      requires !data.IsEmpty()
      modifies this, Roots()
      ensures Valid()
      ensures name in mStore
      ensures fresh(mStore[name]) && mStore[name].handle == data
      ensures mStore == old(mStore)[name := mStore[name]]
      ensures |mStore| == if name in old(mStore) then old(|mStore|) else old(|mStore|) + 1
      ensures name in old(mStore) ==> old(mStore[name]).disposals == 1
      ensures forall p :: p in old(Roots()) && p.disposals != old(p.disposals) ==>
                name in old(mStore) && p == old(mStore[name])
    {
      var found := name in mStore;  // lookupForAdd
      if found {
        var previous := mStore[name];
        assert !previous.IsEmpty();
        OwnsRemove(mStore, name);
        RemoveCard(mStore, name);
        previous.Dispose();
        mStore := mStore - {name};  // remove(slot)
        found := name in mStore;  // lookupForAdd again
      }
      assert !found;
      var root := new Persistent.New(data);
      OwnsAdd(mStore, name, root);
      mStore := mStore[name := root];  // add(slot, name, Persistent::New(data))
    }

    /** The range of all entries; reading it changes nothing. */
    function All(): (r: set<(Jsid, Persistent)>)
      reads this
      requires initialized
      ensures forall k :: k in mStore ==> (k, mStore[k]) in r
      ensures forall e :: e in r ==> e.0 in mStore && mStore[e.0] == e.1
    {
      set k | k in mStore :: (k, mStore[k])
    }

    /**
     * The destructor's loop as written, run for `rounds` iterations: it
     * ends at once on an empty table; otherwise the range is never popped
     * and its front root is disposed every round.
     */
    method DestroyAsWritten(rounds: nat) returns (rangeEmpty: bool)
      requires Valid()
      modifies Roots()
      ensures rangeEmpty <==> mStore == map[]
      ensures mStore != map[] ==>
                exists k :: k in mStore && mStore[k].disposals == rounds &&
                  forall k' :: k' in mStore && k' != k ==> mStore[k'].disposals == 0
    {
      var r := All();
      if mStore != map[] {
        var someKey :| someKey in mStore;
        assert (someKey, mStore[someKey]) in r;
      }
      if r != {} {
        var front :| front in r;  // r.front(): the same entry every round
        var i := 0;
        while i < rounds
          invariant 0 <= i <= rounds
          invariant r == All() && front in r
          invariant front.1.disposals == i
          invariant forall k, k' :: k in mStore && k' in mStore && mStore[k] == mStore[k'] ==> k == k'
          invariant forall k' :: k' in mStore && k' != front.0 ==> mStore[k'].disposals == 0
        {
          assert !front.1.IsEmpty();
          front.1.Dispose();
          i := i + 1;
        }
        assert front.0 in mStore;
      }
      rangeEmpty := r == {};
    }

    /** The destructor with `popFront()` added: every owned root is disposed exactly once. */
    method Destroy()
      requires Valid()
      modifies Roots()
      ensures forall p :: p in old(Roots()) ==> p.disposals == 1
    {
      var r := All();
      while r != {}
        invariant r <= All()
        invariant forall k :: k in mStore ==>
                    mStore[k].disposals == if (k, mStore[k]) in r then 0 else 1
        decreases |r|
      {
        var front :| front in r;
        assert !front.1.IsEmpty();
        front.1.Dispose();
        r := r - {front};  // popFront
      }
    }
  }
}
