/**
 * SpiderMonkey's allocation helpers: the DEBUG out-of-memory injector
 * behind `js_malloc`, `new_` (`JS_NEW_BODY`), `delete_`, and the
 * length-prefixed `array_new` / `array_delete` pair.
 *
 * Memory is modelled by bookkeeping, not bytes: the blocks handed out by
 * the allocator (start address and size), the `size_t` length headers
 * that `array_new` stores at a block's start, and the constructor,
 * destructor and deallocation calls made, in order.  What `malloc`
 * returns is a parameter (`system`, 0 for NULL).  Addresses are unbounded
 * naturals, so pointer arithmetic does not wrap.
 */
module Alloc {
  import opened Machine

  /** `JSMinAlignment`: `array_new` stores the element count in the first 8 bytes of its block. */
  const JSMinAlignment: nat := 8

  /** A byte address; 0 is NULL. */
  type Address = nat

  /*
   * The out-of-memory injector.  `OOM_counter` and `OOM_maxAllocations`
   * are `JSUint32` globals; every allocation attempt increments the counter.
   */

  /** `OOM_counter++ >= OOM_maxAllocations`: the attempt made with this counter value fails. */
  predicate Fails(counter: nat, maxAllocations: nat): (b: bool)
    ensures maxAllocations == 0 ==> b
    ensures counter == 0 ==> (b <==> maxAllocations == 0)
  {
    counter >= maxAllocations
  }

  /** `OOM_counter++` on a 32-bit unsigned counter. */
  function NextCounter(counter: nat): (r: nat)
    requires counter < TWO_32
    ensures r < TWO_32
    ensures r == if counter == TWO_32 - 1 then 0 else counter + 1
  {
    (counter + 1) % TWO_32
  }

  /** The counter after `k` more allocation attempts. */
  function CounterAfter(counter: nat, k: nat): (r: nat)
    requires counter < TWO_32
    ensures r < TWO_32
    ensures r == (counter + k) % TWO_32
    decreases k
  {
    if k == 0 then counter else CounterAfter(NextCounter(counter), k - 1)
  }

  /** Without wrap-around, `k` attempts add `k` to the counter. */
  lemma {:induction false} CounterAfterNoWrap(counter: nat, k: nat)
    requires counter + k < TWO_32
    ensures CounterAfter(counter, k) == counter + k
    decreases k
  {
    if k > 0 {
      CounterAfterNoWrap(counter + 1, k - 1);
    }
  }

  /** Once an attempt fails, the following ones fail too, as long as the counter does not wrap. */
  lemma FailurePersists(counter: nat, maxAllocations: nat, k: nat)
    requires Fails(counter, maxAllocations)
    requires counter + k < TWO_32
    ensures Fails(CounterAfter(counter, k), maxAllocations)
  {
    CounterAfterNoWrap(counter, k);
  }

  /** The 32-bit counter does wrap: after the 2^32-th attempt, allocations succeed again. */
  lemma CounterWrapEndsFailures()
    ensures Fails(TWO_32 - 1, 1)
    ensures !Fails(CounterAfter(TWO_32 - 1, 1), 1)
  {
  }

  class OomInjector {
    /** `OOM_counter`. */
    var counter: nat
    /** `OOM_maxAllocations`, set by the shell's `-A NUM` option. */
    var maxAllocations: nat

    ghost predicate Valid()
      reads this
    {
      counter < TWO_32 && maxAllocations < TWO_32
    }

    constructor (maxAllocations: nat, counter: nat)
      requires maxAllocations < TWO_32 && counter < TWO_32
      ensures Valid()
      ensures this.maxAllocations == maxAllocations && this.counter == counter
    {
      this.maxAllocations := maxAllocations;
      this.counter := counter;
    }

    /** `JS_OOM_POSSIBLY_FAIL()`: `fail` means the allocation returns NULL. */
    method PossiblyFail() returns (fail: bool)
      requires Valid()
      modifies this`counter
      ensures Valid()
      ensures counter == NextCounter(old(counter))
      ensures fail == Fails(old(counter), maxAllocations)
    {
      fail := counter >= maxAllocations;
      counter := (counter + 1) % TWO_32;
    }
  }

  /*
   * array_new's size computation.  The block holds an 8-byte header and
   * `n` elements of `elemSize` bytes; both operands are `size_t` values.
   */

  /** The block size `array_new` computes as written (`None` when its check rejects `n`). */
  function ArraySizeAsWritten(ws: WordSize, elemSize: nat, n: nat): (r: Option<nat>)
    requires elemSize < SizeModulus(ws) && n < SizeModulus(ws)
    ensures r.Some? ==> r.value < SizeModulus(ws)
    ensures r.Some? ==> (r.value - (JSMinAlignment + elemSize * n)) % TWO_64 == 0
  {
    var numBytes64 := (JSMinAlignment + (elemSize * n) % TWO_64) % TWO_64;
    var numBytes := numBytes64 % SizeModulus(ws);
    if numBytes64 != numBytes then None else Some(numBytes)
  }

  /** The block size the check is meant to compute: the true size when `size_t` can represent it. */
  function ArraySize(ws: WordSize, elemSize: nat, n: nat): (r: Option<nat>)
    ensures r.Some? <==> JSMinAlignment + elemSize * n < SizeModulus(ws)
    ensures r.Some? ==> r.value == JSMinAlignment + elemSize * n
  {
    var needed := JSMinAlignment + elemSize * n;
    if needed < SizeModulus(ws) then Some(needed) else None
  }

  lemma MulMonotone(a: nat, b: nat, c: nat, d: nat)
    requires a <= c && b <= d
    ensures a * b <= c * d
  {
    assert a * b <= c * b;
  }

  /** With a 32-bit `size_t` the product cannot wrap in 64 bits, so the check as written is exact. */
  lemma ArraySizeExactOn32(elemSize: nat, n: nat)
    requires elemSize < TWO_32 && n < TWO_32
    ensures ArraySizeAsWritten(W32, elemSize, n) == ArraySize(W32, elemSize, n)
  {
    MulMonotone(elemSize, n, TWO_32 - 1, TWO_32 - 1);
    assert JSMinAlignment + elemSize * n < TWO_64;
  }

  /** With a 64-bit `size_t` the check as written never rejects anything. */
  lemma ArraySizeNeverRejectsOn64(elemSize: nat, n: nat)
    requires elemSize < TWO_64 && n < TWO_64
    ensures ArraySizeAsWritten(W64, elemSize, n).Some?
  {
  }

  /**
   * With a 64-bit `size_t`, 2^60 elements of 16 bytes need 2^64 + 8 bytes,
   * but the product wraps to 0 and the check as written accepts a block of 8 bytes.
   */
  lemma ArraySizeWrapsOn64()
    ensures ArraySizeAsWritten(W64, 16, 0x1000_0000_0000_0000) == Some(8)
    ensures ArraySize(W64, 16, 0x1000_0000_0000_0000).None?
  {
  }

  /** The addresses of `n` consecutive elements of `elemSize` bytes starting at `p`. */
  function Elements(p: Address, elemSize: nat, n: nat): (r: seq<Address>)
    ensures |r| == n
    ensures forall i :: 0 <= i < n ==> r[i] == p + i * elemSize
  {
    seq(n, i => p + i * elemSize)
  }

  class Heap {
    /** Live blocks from the allocator: start address to size in bytes. */
    var blocks: map<Address, nat>
    /** The `size_t` word `array_new` stored at a block start. */
    var headers: map<Address, nat>
    /** Objects constructed in allocated memory, in order. */
    var constructed: seq<Address>
    /** Destructor calls, in order. */
    var destroyed: seq<Address>
    /** Block starts handed to the deallocator, in order. */
    var freed: seq<Address>

    constructor ()
      ensures blocks == map[] && headers == map[]
      ensures constructed == [] && destroyed == [] && freed == []
    {
      blocks, headers := map[], map[];
      constructed, destroyed, freed := [], [], [];
    }

    /** `js_malloc(bytes)`; `system` is what `malloc` would return, a block not currently live. */
    method Malloc(oom: OomInjector, bytes: nat, system: Address) returns (p: Address)
      requires oom.Valid()
      requires system != 0 ==> system !in blocks
      modifies this`blocks, oom`counter
      ensures oom.Valid() && oom.counter == NextCounter(old(oom.counter))
      ensures p == if Fails(old(oom.counter), oom.maxAllocations) then 0 else system
      ensures blocks == if p == 0 then old(blocks) else old(blocks)[p := bytes]
    {
      var fail := oom.PossiblyFail();
      if fail {
        return 0;
      }
      p := system;
      if p != 0 {
        blocks := blocks[p := bytes];
      }
    }

    /** `js_free(p)` of a live block. */
    method Free(p: Address)
      requires p in blocks
      modifies this`blocks, this`headers, this`freed
      ensures blocks == old(blocks) - {p} && headers == old(headers) - {p}
      ensures freed == old(freed) + [p]
    {
      blocks, headers := blocks - {p}, headers - {p};
      freed := freed + [p];
    }

    /** `new_<T>()` through `JS_NEW_BODY`: NULL exactly when the allocator returns NULL. */
    method New(oom: OomInjector, elemSize: nat, system: Address) returns (p: Address)
      requires oom.Valid()
      requires system != 0 ==> system !in blocks
      modifies this`blocks, this`constructed, oom`counter
      ensures oom.Valid() && oom.counter == NextCounter(old(oom.counter))
      ensures p == if Fails(old(oom.counter), oom.maxAllocations) then 0 else system
      ensures blocks == if p == 0 then old(blocks) else old(blocks)[p := elemSize]
      ensures constructed == if p == 0 then old(constructed) else old(constructed) + [p]
    {
      var memory := Malloc(oom, elemSize, system);
      if memory != 0 {
        constructed := constructed + [memory];  // new(memory) T(parms)
      }
      p := memory;
    }

    /** `delete_(p)`: destroy and free a non-null object; NULL is a no-op. */
    method Delete(p: Address)
      requires p != 0 ==> p in blocks
      modifies this`blocks, this`headers, this`destroyed, this`freed
      ensures p == 0 ==> blocks == old(blocks) && headers == old(headers)
      ensures p == 0 ==> destroyed == old(destroyed) && freed == old(freed)
      ensures p != 0 ==> destroyed == old(destroyed) + [p] && freed == old(freed) + [p]
      ensures p != 0 ==> blocks == old(blocks) - {p} && headers == old(headers) - {p}
    {
      if p != 0 {
        destroyed := destroyed + [p];  // p->~T()
        Free(p);
      }
    }

    /**
     * `array_new<T>(n)` with `sizeof(T) == elemSize`: NULL when the block
     * size is not representable or the allocator fails; otherwise the block
     * starts with the header `n` and the result points 8 bytes past it, at
     * `n` freshly constructed elements.
     */
    method ArrayNew(oom: OomInjector, ws: WordSize, elemSize: nat, n: nat, system: Address) returns (p: Address)
      requires oom.Valid()
      requires 0 < elemSize < SizeModulus(ws) && n < SizeModulus(ws)
      requires system != 0 ==> system !in blocks
      modifies this`blocks, this`headers, this`constructed, oom`counter
      ensures oom.Valid()
      ensures oom.counter == if ArraySize(ws, elemSize, n).None? then old(oom.counter) else NextCounter(old(oom.counter))
      ensures p == 0 <==> ArraySize(ws, elemSize, n).None? || Fails(old(oom.counter), oom.maxAllocations) || system == 0
      ensures p != 0 ==> p == system + JSMinAlignment
      ensures p != 0 ==> blocks == old(blocks)[system := JSMinAlignment + elemSize * n]
      ensures p != 0 ==> headers == old(headers)[system := n]
      ensures p != 0 ==> constructed == old(constructed) + Elements(p, elemSize, n)
      ensures p == 0 ==> blocks == old(blocks) && headers == old(headers) && constructed == old(constructed)
    {
      var numBytes := ArraySize(ws, elemSize, n);
      if numBytes.None? {
        return 0;
      }
      var memory := Malloc(oom, numBytes.value, system);
      if memory == 0 {
        return 0;
      }
      headers := headers[memory := n];  // *(size_t *)memory = n
      p := memory + JSMinAlignment;
      constructed := constructed + Elements(p, elemSize, n);  // new(memory) T[n]
    }

    /**
     * `array_delete(p)`: read the element count from the header 8 bytes
     * before `p`, destroy that many elements in order and free the block
     * start; NULL is a no-op.
     */
    method ArrayDelete(p: Address, elemSize: nat)
      requires p != 0 ==> p >= JSMinAlignment && p - JSMinAlignment in headers && p - JSMinAlignment in blocks
      modifies this`blocks, this`headers, this`destroyed, this`freed
      ensures p == 0 ==> blocks == old(blocks) && headers == old(headers)
      ensures p == 0 ==> destroyed == old(destroyed) && freed == old(freed)
      ensures p != 0 ==> destroyed == old(destroyed) + Elements(p, elemSize, old(headers[p - JSMinAlignment]))
      ensures p != 0 ==> freed == old(freed) + [p - JSMinAlignment]
      ensures p != 0 ==> blocks == old(blocks) - {p - JSMinAlignment} && headers == old(headers) - {p - JSMinAlignment}
    {
      if p != 0 {
        var p0 := p - JSMinAlignment;
        var n := headers[p0];
        var i := 0;
        while i < n
          invariant 0 <= i <= n
          invariant destroyed == old(destroyed) + Elements(p, elemSize, i)
          invariant blocks == old(blocks) && headers == old(headers) && freed == old(freed)
        {
          assert Elements(p, elemSize, i + 1) == Elements(p, elemSize, i) + [p + i * elemSize];
          destroyed := destroyed + [p + i * elemSize];  // (p + i)->~T()
          i := i + 1;
        }
        Free(p0);
      }
    }
  }

  /**
   * `array_new` followed by `array_delete` on a fresh heap: the delete
   * reads back the same count, destroys exactly the elements the new
   * constructed, in the same order, and frees the block start.
   */
  method ArrayRoundTrip(ws: WordSize, elemSize: nat, n: nat, maxAllocations: nat, counter: nat, system: Address)
    returns (p: Address, constructed: seq<Address>, destroyed: seq<Address>, freed: seq<Address>)
    requires 0 < elemSize < SizeModulus(ws) && n < SizeModulus(ws)
    requires maxAllocations < TWO_32 && counter < TWO_32
    ensures p == 0 <==> ArraySize(ws, elemSize, n).None? || Fails(counter, maxAllocations) || system == 0
    ensures p != 0 ==> p == system + JSMinAlignment && freed == [system]
    ensures p != 0 ==> constructed == destroyed == Elements(p, elemSize, n)
    ensures p == 0 ==> constructed == destroyed == freed == []
  {
    var heap := new Heap();
    var oom := new OomInjector(maxAllocations, counter);
    p := heap.ArrayNew(oom, ws, elemSize, n, system);
    heap.ArrayDelete(p, elemSize);
    constructed, destroyed, freed := heap.constructed, heap.destroyed, heap.freed;
  }

  /** `new_` followed by `delete_` on a fresh heap: the one object made is the one destroyed and freed. */
  method ObjectRoundTrip(elemSize: nat, maxAllocations: nat, counter: nat, system: Address)
    returns (p: Address, destroyed: seq<Address>, freed: seq<Address>)
    requires maxAllocations < TWO_32 && counter < TWO_32
    ensures p == 0 <==> Fails(counter, maxAllocations) || system == 0
    ensures p != 0 ==> p == system && destroyed == freed == [system]
    ensures p == 0 ==> destroyed == freed == []
  {
    var heap := new Heap();
    var oom := new OomInjector(maxAllocations, counter);
    p := heap.New(oom, elemSize, system);
    heap.Delete(p);
    destroyed, freed := heap.destroyed, heap.freed;
  }
}
