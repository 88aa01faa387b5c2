/**
 The array of held mutexes: eight slots inside the structure and the rest in separately allocated
 storage, with the size counting both.
 */
module HeldArray {
  const INLINE_CAPACITY := 8

  /** memmove within an array. */
  method MemMove<T>(a: array<T>, to: nat, from: nat, n: nat)
    requires to + n <= a.Length && from + n <= a.Length
    modifies a
    ensures forall k :: 0 <= k < a.Length ==> a[k] == if to <= k < to + n then old(a[from + (k - to)]) else old(a[k])
  {
    forall k | 0 <= k < n {
      a[to + k] := a[from + k];
    }
  }

  /** Shifting behind index `i` is removing element `i`. */
  lemma ShiftedIsRemoved<T>(s: seq<T>, s': seq<T>, i: nat)
    requires i < |s| && |s'| == |s| - 1 && forall k :: 0 <= k < |s'| ==> s'[k] == s[if k < i then k else k + 1]
    ensures s' == s[..i] + s[i + 1..]
  {}

  lemma RemoveFromSecond<T>(f: seq<T>, d: seq<T>, d': seq<T>, i: nat)
    requires i < |d| && |d'| == |d| - 1 && forall k :: 0 <= k < |d'| ==> d'[k] == d[if k < i then k else k + 1]
    ensures f + d' == (f + d)[..|f| + i] + (f + d)[|f| + i + 1..]
  {
    ShiftedIsRemoved(d, d', i);
    ShiftedIsRemoved(f + d, f + d', |f| + i);
  }

  lemma RemoveFromFirst<T>(f: seq<T>, f': seq<T>, d: seq<T>, d': seq<T>, i: nat)
    requires i < |f| == |f'| && |d'| == |d| - 1
    requires forall k {:trigger f'[k]} :: 0 <= k < |f| ==>
             f'[k] == if k < i then f[k] else if k + 1 < |f| then f[k + 1] else d[0]
    requires forall k {:trigger d'[k]} :: 0 <= k < |d'| ==> d'[k] == d[k + 1]
    ensures f' + d' == (f + d)[..i] + (f + d)[i + 1..]
  {
    var s, s' := f + d, f' + d';
    forall k | 0 <= k < |s'| ensures s'[k] == s[if k < i then k else k + 1] {
      if k >= |f| {
        assert d'[k - |f|] == d[k - |f| + 1] == s[k + 1];
      } else if i <= k {
        assert f'[k] == if k + 1 < |f| then f[k + 1] else d[0];
        assert s[|f|] == d[0];
      }
    }
    ShiftedIsRemoved(s, s', i);
  }

  class Held<T(0)> {
    const fixed: array<T>
    var dynamic: array<T>
    var size: nat
    ghost var contents: seq<T>  // the elements in order

    ghost predicate Valid()
      reads this, fixed, dynamic
    {
      && fixed.Length == INLINE_CAPACITY && fixed != dynamic && size <= INLINE_CAPACITY + dynamic.Length
      && contents == Elements()
    }

    ghost function Elements(): seq<T>
      requires fixed.Length == INLINE_CAPACITY && size <= INLINE_CAPACITY + dynamic.Length
      reads this, fixed, dynamic
    {
      if size <= INLINE_CAPACITY then fixed[..size] else fixed[..] + dynamic[..size - INLINE_CAPACITY]
    }

    constructor ()
      ensures Valid() && contents == [] && fresh(fixed) && fresh(dynamic)
    {
      fixed := new T[INLINE_CAPACITY];
      dynamic := new T[0];
      size := 0;
      contents := [];
    }

    function At(i: nat): (x: T)
      requires Valid() && i < size
      reads this, fixed, dynamic
      ensures |contents| == size && x == contents[i]
    {
      if i < INLINE_CAPACITY then fixed[i] else dynamic[i - INLINE_CAPACITY]
    }

    /** Makes room for one more; `granted` says whether the allocation succeeds. */
    method Grow(granted: bool) returns (ok: bool)
      requires Valid() && size >= INLINE_CAPACITY && size - INLINE_CAPACITY == dynamic.Length
      modifies this`dynamic
      ensures ok == granted && Valid()
      ensures ok ==> size < INLINE_CAPACITY + dynamic.Length && fresh(dynamic)
      ensures !ok ==> dynamic == old(dynamic)
    {
      if !granted {
        return false;
      }
      var capacity := dynamic.Length;
      var extra := if capacity == 0 then INLINE_CAPACITY else if capacity / 2 == 0 then 1 else capacity / 2;
      var buffer := new T[capacity + extra];
      forall k | 0 <= k < capacity {
        buffer[k] := dynamic[k];
      }
      assert buffer[..capacity] == dynamic[..capacity];
      dynamic := buffer;
      ok := true;
    }

    /** held_mutexes_array_push. */
    method Push(x: T, granted: bool) returns (ok: bool)
      requires Valid()
      modifies this, fixed, dynamic
      ensures Valid() && (dynamic == old(dynamic) || fresh(dynamic))
      ensures granted ==> ok
      ensures contents == if ok then old(contents) + [x] else old(contents)
    {
      if size >= INLINE_CAPACITY {
        if size - INLINE_CAPACITY == dynamic.Length {
          ok := Grow(granted);
          if !ok {
            return;
          }
        }
        dynamic[size - INLINE_CAPACITY] := x;
      } else {
        fixed[size] := x;
      }
      size := size + 1;
      contents := contents + [x];
      ok := true;
    }

    method Pop()
      requires Valid()
      modifies this`size, this`contents
      ensures Valid()
      ensures contents == if old(contents) == [] then [] else old(contents)[..|old(contents)| - 1]
    {
      if size == 0 {
        return;
      }
      size := size - 1;
      contents := contents[..size];
    }

    /** Only the separately allocated part is affected. */
    method RemoveDynamic(i: nat)
      requires Valid() && INLINE_CAPACITY <= i < size
      modifies this`size, this`contents, dynamic
      ensures Valid() && contents == old(contents)[..i] + old(contents)[i + 1..]
    {
      var j, n := i - INLINE_CAPACITY, size - INLINE_CAPACITY;
      ghost var f, d := fixed[..], dynamic[..n];
      MemMove(dynamic, j, j + 1, n - (j + 1));
      RemoveFromSecond(f, d, dynamic[..n - 1], j);
      size := size - 1;
      contents := contents[..i] + contents[i + 1..];
    }

    /** Everything was inline: the elements behind move down by one. */
    method RemoveInline(i: nat)
      requires Valid() && i < size <= INLINE_CAPACITY
      modifies this`size, this`contents, fixed
      ensures Valid() && contents == old(contents)[..i] + old(contents)[i + 1..]
    {
      ghost var f := fixed[..size];
      MemMove(fixed, i, i + 1, size - (i + 1));
      size := size - 1;
      ShiftedIsRemoved(f, fixed[..size], i);
      contents := contents[..i] + contents[i + 1..];
    }

    /** The stores of a removal from the inline part when both parts are in use. */
    method ShiftAcross(i: nat, n: nat)
      requires fixed.Length == INLINE_CAPACITY && fixed != dynamic && i < INLINE_CAPACITY && 0 < n <= dynamic.Length
      modifies fixed, dynamic
      ensures forall k :: 0 <= k < INLINE_CAPACITY ==>
                fixed[k] == if k < i then old(fixed[k]) else if k + 1 < INLINE_CAPACITY then old(fixed[k + 1])
                  else old(dynamic[0])
      ensures forall k :: 0 <= k < n - 1 ==> dynamic[k] == old(dynamic[k + 1])
    {
      MemMove(fixed, i, i + 1, INLINE_CAPACITY - (i + 1));
      fixed[INLINE_CAPACITY - 1] := dynamic[0];
      MemMove(dynamic, 0, 1, n - 1);
    }

    /** Both parts are in use: the first dynamic element moves to the top of the inline part. */
    method RemoveAcross(i: nat)
      requires Valid() && i < INLINE_CAPACITY < size
      modifies this`size, this`contents, fixed, dynamic
      ensures Valid() && contents == old(contents)[..i] + old(contents)[i + 1..]
    {
      var n := size - INLINE_CAPACITY;
      ghost var f, d := fixed[..], dynamic[..n];
      ShiftAcross(i, n);
      RemoveFromFirst(f, fixed[..], d, dynamic[..n - 1], i);
      size := size - 1;
      contents := contents[..i] + contents[i + 1..];
    }

    /** held_mutexes_array_remove_idx: whatever the split, exactly sequence removal. */
    method RemoveIdx(i: nat)
      requires Valid() && i < size
      modifies this`size, this`contents, fixed, dynamic
      ensures Valid() && i < |old(contents)| && contents == old(contents)[..i] + old(contents)[i + 1..]
    {
      if i >= INLINE_CAPACITY {
        RemoveDynamic(i);
      } else if size > INLINE_CAPACITY {
        RemoveAcross(i);
      } else {
        RemoveInline(i);
      }
    }
  }
}
