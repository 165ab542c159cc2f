/**
 * The generic growable vector of ev_vec.h.
 *
 * In C a vector is a pointer to its first element, with a header (`length`, `capacity`,
 * a by-value copy of the element type's descriptor, and whether the block is on the stack
 * or from `malloc`) stored just in front of it. Here the header is the fields of a
 * `Vector` object and the element slots are an array whose length is the capacity.
 * Elements are values of `T`: `memcpy` of an element is the value itself and `memcmp`
 * equality is `==`. Calls of `free_fn` are recorded, element by element, in `freed`.
 */
module Vec {
  import opened Types
  import opened Runtime

  /** `EV_VEC_INIT_CAP`. */
  const INIT_CAP: nat := 32

  /** `ev_vec_error_t`. */
  datatype VecError = ErrNone | ErrOom

  /** The numeric value of an error, as it appears in the results it shares with an index. */
  function Code(e: VecError): nat {
    match e
    case ErrNone => 0
    case ErrOom => 1
  }

  /** Where the header and the elements live: a compound literal (`svec`) or a `malloc` block. */
  datatype Kind = Stack | Heap

  /** `ev_vec_overrides_t`; a NULL member is `None`. */
  datatype Overrides<!T> = Overrides(copy: Option<CopyOp<T>>, equal: Option<EqualOp<T>>, free: Option<FreeOp>)

  /** The capacity `ev_vec_grow` asks for: `capacity * 3 / 2` in integer arithmetic. */
  function GrownCapacity(c: nat): (r: nat)
    ensures r >= c
    ensures r > c <==> c >= 2
  {
    c * 3 / 2
  }

  /** The conversion of a count to a 32-bit `int` result (two's-complement wrap). */
  function AsInt32(n: int): (r: int)
    ensures -0x8000_0000 <= r < 0x8000_0000
    ensures (r - n) % 0x1_0000_0000 == 0
    ensures -0x8000_0000 <= n < 0x8000_0000 ==> r == n
  {
    var m := n % 0x1_0000_0000;
    if m >= 0x8000_0000 then m - 0x1_0000_0000 else m
  }

  /** The conversion of a count to a `u32` result. */
  function AsU32(n: int): (r: nat)
    ensures r < 0x1_0000_0000 && (r - n) % 0x1_0000_0000 == 0
    ensures 0 <= n < 0x1_0000_0000 ==> r == n
  {
    n % 0x1_0000_0000
  }

  /** The descriptor copy `ev_vec_init_impl` stores: each non-NULL override replaces its operation. */
  function WithOverrides<T>(td: TypeData<T>, ov: Overrides<T>): TypeData<T> {
    var withCopy := if ov.copy.Some? then td.(copyFn := ov.copy) else td;
    var withEqual := if ov.equal.Some? then withCopy.(equalFn := ov.equal) else withCopy;
    if ov.free.Some? then withEqual.(freeFn := ov.free) else withEqual
  }

  /** The non-NULL overrides, in the order `ev_vec_init_impl` tests them, as descriptor overrides. */
  function OverrideList<T>(ov: Overrides<T>): seq<Override<T>> {
    (if ov.copy.Some? then [WithCopy(ov.copy.value)] else [])
    + (if ov.equal.Some? then [WithEqual(ov.equal.value)] else [])
    + (if ov.free.Some? then [WithFree(ov.free.value)] else [])
  }

  /** Applying one override after a list of them is applying the extended list. */
  lemma {:induction false} ApplyAllSnoc<T>(td: TypeData<T>, ovs: seq<Override<T>>, o: Override<T>)
    ensures ApplyAll(td, ovs + [o]) == Apply(ApplyAll(td, ovs), o)
    decreases |ovs|
  {
    if ovs != [] {
      assert (ovs + [o])[1..] == ovs[1..] + [o];
      ApplyAllSnoc(Apply(td, ovs[0]), ovs[1..], o);
    } else {
      assert ([] + [o])[1..] == [];
    }
  }

  /**
   * The vector's descriptor is the caller's descriptor with the non-NULL overrides applied as
   * designated initialisers: so each replaces only its own operation, and size, alignment,
   * the hash and the default and invalid values are the caller's.
   */
  lemma InitOverridesAsList<T>(td: TypeData<T>, ov: Overrides<T>)
    ensures WithOverrides(td, ov) == ApplyAll(td, OverrideList(ov))
    ensures forall f :: (Get(WithOverrides(td, ov), f)
      == (if LastFor(OverrideList(ov), f).Some? then Payload(LastFor(OverrideList(ov), f).value) else Get(td, f)))
  {
    var c := if ov.copy.Some? then [WithCopy(ov.copy.value)] else [];
    var e := if ov.equal.Some? then [WithEqual(ov.equal.value)] else [];
    assert OverrideList(ov) == c + e + (if ov.free.Some? then [WithFree(ov.free.value)] else []);
    assert ApplyAll(td, []) == td;
    if ov.copy.Some? {
      assert c == [] + [WithCopy(ov.copy.value)];
      ApplyAllSnoc(td, [], WithCopy(ov.copy.value));
    }
    if ov.equal.Some? {
      assert c + e == c + [WithEqual(ov.equal.value)];
      ApplyAllSnoc(td, c, WithEqual(ov.equal.value));
    } else {
      assert c + e == c;
    }
    if ov.free.Some? {
      ApplyAllSnoc(td, c + e, WithFree(ov.free.value));
    } else {
      assert OverrideList(ov) == c + e;
    }
    forall f {
      ApplyAllField(td, OverrideList(ov), f);
    }
  }

  /** `equal_fn(elem, val)` when the descriptor has one, else `memcmp(elem, val, size) == 0`. */
  function Matches<T(==)>(eq: Option<EqualOp<T>>, elem: T, val: T): bool {
    match eq
    case Some(op) => RunEqual(op, elem, val)
    case None => elem == val
  }

  /** The smallest index of `s` whose element matches `val`, or -1 when there is none. */
  function FirstMatch<T(==)>(s: seq<T>, val: T, eq: Option<EqualOp<T>>): (r: int)
    ensures -1 <= r < |s|
    ensures 0 <= r ==> Matches(eq, s[r], val)
    ensures forall j :: 0 <= j < |s| && (r < 0 || j < r) ==> !Matches(eq, s[j], val)
    decreases |s|
  {
    if s == [] then -1
    else if Matches(eq, s[0], val) then 0
    else
      var r := FirstMatch(s[1..], val, eq);
      if r < 0 then -1 else r + 1
  }

  /** An index that matches, with no match before it, is the first match. */
  lemma FirstMatchAt<T>(s: seq<T>, val: T, eq: Option<EqualOp<T>>, i: nat)
    requires i < |s| && Matches(eq, s[i], val)
    requires forall j :: 0 <= j < i ==> !Matches(eq, s[j], val)
    ensures FirstMatch(s, val, eq) == i
  {
  }

  /** The value stored by `push` and `pop`: through `copy_fn` when present, else by `memcpy`. */
  function CopyWith<T>(op: Option<CopyOp<T>>, src: T): T {
    match op
    case Some(c) => RunCopy(c, src)
    case None => src
  }

  /**
   * A vector whose descriptor `TYPEDATA_GEN` built without `COPY` or `EQUAL` arguments stores
   * the values it is given and finds an element exactly where it is `==` to the value searched.
   */
  lemma GeneratedDescriptorDefaults<T>(size: nat, alignment: nat, zero: T, ovs: seq<Override<T>>,
                                            v: T, s: seq<T>, val: T)
    requires Untouched(ovs, CopyField) && Untouched(ovs, EqualField) && Untouched(ovs, HashField)
    ensures CopyWith(TypeDataGen(size, alignment, zero, ovs).copyFn, v) == v
    ensures forall a :: Matches(TypeDataGen(size, alignment, zero, ovs).equalFn, a, val) <==> a == val
    ensures FirstMatch(s, val, TypeDataGen(size, alignment, zero, ovs).equalFn) == FirstMatch(s, val, None)
  {
    var td := TypeDataGen(size, alignment, zero, ovs);
    DefaultOpsWithoutOverrides(size, alignment, zero, ovs, v, v, [], 0);
    assert td.equalFn == Some(DefaultEqual);
  }

  /**
   * The elements the free loop of `ev_vec_clear` / `ev_vec_fini` hands to `free_fn`: all of
   * them when there is one, and none when the element size is 0 (the loop's end iterator
   * is then its start).
   */
  function FreedBy<T>(td: TypeData<T>, s: seq<T>): seq<T> {
    if td.freeFn.Some? && td.size > 0 then s else []
  }

  /** With a positive factor, equal products have equal multiplicands. */
  lemma ScaleInjective(a: nat, b: nat, s: nat)
    requires s > 0
    ensures a * s == s * b <==> a == b
  {
    if a < b {
      assert (b - a) * s > 0;
    } else if a > b {
      assert (a - b) * s > 0;
    }
  }

  class Vector<T(0,==)> {
    /** The element slots of the block. */
    var elems: array<T>
    var length: nat
    var capacity: nat
    /** The vector's own copy of the element type's descriptor. */
    var typeData: TypeData<T>
    var kind: Kind
    /** Every element handed to `free_fn`, in call order. */
    ghost var freed: seq<T>

    /** The block holds exactly `capacity` slots. */
    ghost predicate Sound()
      reads this
    {
      elems.Length == capacity
    }

    /** ... and the live elements fit in it (`ev_vec_setcapacity` below the length breaks this). */
    ghost predicate Valid()
      reads this
    {
      Sound() && length <= capacity
    }

    /** The live elements. */
    function Contents(): seq<T>
      reads this, elems
      requires Valid()
    {
      elems[..length]
    }

    /** The header and block that `ev_vec_init_impl` builds once `malloc` has succeeded. */
    constructor HeapBlock(td: TypeData<T>)
      ensures Valid() && fresh(elems)
      ensures length == 0 && capacity == INIT_CAP && kind == Heap && typeData == td && freed == []
    {
      elems := new T[INIT_CAP];
      length := 0;
      capacity := INIT_CAP;
      typeData := td;
      kind := Heap;
      freed := [];
    }

    /**
     * `ev_vec_init_impl`: NULL when `malloc` fails; otherwise an empty heap vector of capacity
     * `EV_VEC_INIT_CAP` whose descriptor copy carries the non-NULL overrides.
     */
    static method Init(td: TypeData<T>, ov: Overrides<T>) returns (v: Vector?<T>)
      ensures v != null ==> fresh(v) && fresh(v.elems) && v.Valid()
      ensures v != null ==> v.length == 0 && v.capacity == INIT_CAP && v.kind == Heap
      ensures v != null ==> v.typeData == WithOverrides(td, ov) && v.freed == []
    {
      var ok := Allocate();
      if !ok {
        return null;
      }
      v := new Vector.HeapBlock(WithOverrides(td, ov));
    }

    /**
     * `__ev_svec_init_impl(T, len, cap, ...)`: a zero-filled block of `cap` slots with the
     * initialiser's elements (if any) copied to the front, length `len` and the descriptor
     * unchanged. `ev_svec_init` passes len = cap = the initialiser's size, `ev_svec_init_w_cap`
     * len = 0 and no initialiser, `ev_svec_init_w_len` len = cap and no initialiser.
     */
    constructor StackBlock(td: TypeData<T>, len: nat, cap: nat, init: seq<T>, zero: T)
      requires len <= cap && |init| <= cap
      ensures Valid() && fresh(elems)
      ensures length == len && capacity == cap && kind == Stack && typeData == td && freed == []
      ensures elems[..] == init + seq(cap - |init|, _ => zero)
    {
      elems := new T[cap]((i: nat) => if i < |init| then init[i] else zero);
      length := len;
      capacity := cap;
      typeData := td;
      kind := Stack;
      freed := [];
      new;
      assert elems[..] == init + seq(cap - |init|, _ => zero);
    }

    /** `ev_vec_iter_begin`, as a byte offset from the first element. */
    function IterBegin(): nat {
      0
    }

    /** `ev_vec_iter_end`: the byte offset just past the last element. */
    function IterEnd(): nat
      reads this`typeData, this`length
    {
      typeData.size * length
    }

    /** `ev_vec_iter_next`: one element further. */
    function IterNext(it: nat): nat
      reads this`typeData
    {
      it + typeData.size
    }

    /** The iterator after `k` calls of `ev_vec_iter_next` from the beginning. */
    function IterAfter(k: nat): nat
      reads this`typeData
    {
      if k == 0 then IterBegin() else IterNext(IterAfter(k - 1))
    }

    /**
     * After `k` steps the iterator is at element `k`; for a positive element size it reaches
     * the end iterator exactly after `length` steps, so a begin/end/next loop visits each
     * element once, in order.
     */
    lemma {:induction false} IterAfterIsOffset(k: nat)
      ensures IterAfter(k) == k * typeData.size
      ensures typeData.size > 0 ==> (IterAfter(k) == IterEnd() <==> k == length)
    {
      if k > 0 {
        IterAfterIsOffset(k - 1);
      }
      if typeData.size > 0 {
        ScaleInjective(k, length, typeData.size);
      }
    }

    /** `ev_vec_len`. */
    function Len(): nat
      reads this
    {
      length
    }

    /** `ev_vec_capacity`. */
    function Capacity(): nat
      reads this
    {
      capacity
    }

    /** `ev_vec_last`: NULL for an empty vector, else the last element. */
    function Last(): (r: Option<T>)
      reads this, elems
      requires Valid()
      ensures r.None? <==> Contents() == []
      ensures r.Some? ==> |Contents()| > 0 && r.value == Contents()[|Contents()| - 1]
    {
      if length == 0 then None else Some(elems[length - 1])
    }

    /** A begin/end/next loop still inside the vector is before its last element, one step ahead of it. */
    lemma IterLoopStep(i: nat)
      requires i <= length && IterAfter(i) != IterEnd()
      ensures i < length && typeData.size > 0 && IterNext(IterAfter(i)) == IterAfter(i + 1)
    {
      IterAfterIsOffset(i);
    }

    /** A begin/end/next loop that has reached the end iterator has visited every element. */
    lemma IterLoopEnd(i: nat)
      requires i <= length && IterAfter(i) == IterEnd()
      ensures typeData.size > 0 ==> i == length
    {
      IterAfterIsOffset(i);
    }

    /**
     * `ev_vec_find`: the index of the first element equal to `val` (by `equal_fn` if set,
     * else `memcmp`), as an `i32`, or -1. With an element size of 0 the loop never runs.
     */
    method Find(val: T) returns (r: int)
      requires Valid()
      ensures typeData.size == 0 ==> r == -1
      ensures typeData.size > 0 ==> r == AsInt32(FirstMatch(Contents(), val, typeData.equalFn))
    {
      hide AsInt32;
      var i: nat := 0;
      var elem := IterBegin();
      hide IterAfter, IterEnd, IterNext;
      while elem != IterEnd()
        invariant i <= length && elem == IterAfter(i)
        invariant forall j :: 0 <= j < i ==> !Matches(typeData.equalFn, elems[j], val)
        decreases length - i
      {
        IterLoopStep(i);
        if Matches(typeData.equalFn, elems[i], val) {
          // `(elem - begin) / size` is the index of the element the iterator is at.
          FirstMatchAt(Contents(), val, typeData.equalFn, i);
          return AsInt32(i);
        }
        elem := IterNext(elem);
        i := i + 1;
      }
      IterLoopEnd(i);
      assert typeData.size > 0 ==> forall j :: 0 <= j < |Contents()| ==> !Matches(typeData.equalFn, Contents()[j], val);
      return -1;
    }

    /**
     * `ev_vec_setcapacity`: a stack vector answers OOM; an unchanged capacity succeeds at once;
     * otherwise the block is reallocated to `cap` slots, keeping the slots both sizes share.
     * The length is not checked against `cap`.
     */
    method SetCapacity(cap: nat) returns (err: VecError)
      requires Sound()
      modifies this
      ensures Sound()
      ensures length == old(length) && kind == old(kind) && typeData == old(typeData) && freed == old(freed)
      ensures old(kind) == Stack ==> err == ErrOom
      ensures old(kind) == Heap && cap == old(capacity) ==> err == ErrNone && elems == old(elems)
      ensures err == ErrOom ==> capacity == old(capacity) && elems == old(elems)
      ensures err == ErrNone ==> capacity == cap
      ensures elems == old(elems) || fresh(elems)
      ensures forall j :: 0 <= j < old(capacity) && j < capacity ==> elems[j] == old(elems[j])
    {
      if kind == Stack {
        return ErrOom;
      }
      if capacity == cap {
        return ErrNone;
      }
      var ok := Allocate();
      if !ok {
        return ErrOom;
      }
      var block := new T[cap];
      var kept := if cap < capacity then cap else capacity;
      forall j | 0 <= j < kept {
        block[j] := elems[j];
      }
      elems := block;
      capacity := cap;
      return ErrNone;
    }

    /** `ev_vec_grow`: `ev_vec_setcapacity(capacity * 3 / 2)`. */
    method Grow() returns (err: VecError)
      requires Sound()
      modifies this
      ensures Sound()
      ensures length == old(length) && kind == old(kind) && typeData == old(typeData) && freed == old(freed)
      ensures old(kind) == Stack ==> err == ErrOom
      ensures old(kind) == Heap && old(capacity) < 2 ==> err == ErrNone && capacity == old(capacity) && elems == old(elems)
      ensures err == ErrOom ==> capacity == old(capacity) && elems == old(elems)
      ensures err == ErrNone ==> capacity == GrownCapacity(old(capacity))
      ensures elems == old(elems) || fresh(elems)
      ensures forall j :: 0 <= j < old(capacity) ==> elems[j] == old(elems[j])
    {
      err := SetCapacity(GrownCapacity(capacity));
    }

    /**
     * `ev_vec_setlen`: grows until `len` fits, then sets the length; shortening frees nothing.
     * A failed grow returns OOM with the length and elements unchanged (earlier successful
     * grows stay). A heap vector of capacity 0 or 1 never grows, so the loop never ends.
     */
    method SetLen(len: nat) returns (err: VecError, exit: Exit)
      requires Sound()
      modifies this
      ensures Sound()
      ensures kind == old(kind) && typeData == old(typeData) && freed == old(freed)
      ensures capacity >= old(capacity)
      ensures elems == old(elems) || fresh(elems)
      ensures forall j :: 0 <= j < old(capacity) ==> elems[j] == old(elems[j])
      ensures exit == Returns || exit == Hangs
      ensures exit == Hangs <==> old(kind) == Heap && len > old(capacity) && old(capacity) < 2
      ensures exit == Returns && err == ErrNone ==> length == len && capacity >= len
      ensures exit == Hangs || err == ErrOom ==> length == old(length)
      ensures exit == Returns && err == ErrOom ==> len > old(capacity)
      ensures old(kind) == Stack && len > old(capacity) ==> exit == Returns && err == ErrOom && capacity == old(capacity)
      ensures len <= old(capacity) ==> exit == Returns && err == ErrNone && capacity == old(capacity) && elems == old(elems)
    {
      while len > capacity
        invariant Sound() && length == old(length)
        invariant kind == old(kind) && typeData == old(typeData) && freed == old(freed)
        invariant capacity >= old(capacity)
        invariant elems == old(elems) || fresh(elems)
        invariant forall j :: 0 <= j < old(capacity) ==> elems[j] == old(elems[j])
        invariant len <= old(capacity) ==> capacity == old(capacity) && elems == old(elems)
        invariant kind == Stack || old(capacity) < 2 ==> capacity == old(capacity) && elems == old(elems)
        decreases len - capacity
      {
        var before := capacity;
        var e := Grow();
        if e != ErrNone {
          return e, Returns;
        }
        if capacity == before {
          // The grow succeeded without changing the header: every further iteration repeats it.
          return ErrNone, Hangs;
        }
      }
      length := len;
      return ErrNone, Returns;
    }

    /**
     * `ev_vec_push_impl`. A full vector first grows; if that fails the result is the error
     * code 1 and nothing changes. Otherwise `val` is stored in slot `length` (through `copy_fn`
     * if set) and the old length is returned as an `int`. A full heap vector of capacity
     * 0 or 1 "grows" to the same capacity, and the store then lands past the block.
     */
    method Push(val: T) returns (r: int, exit: Exit)
      requires Valid()
      modifies this, elems
      ensures Valid()
      ensures kind == old(kind) && typeData == old(typeData) && freed == old(freed)
      ensures exit == Returns || exit == Undefined
      ensures exit == Undefined <==> old(kind) == Heap && old(length) == old(capacity) && old(capacity) < 2
      ensures exit == Returns && length == old(length) ==>
        r == Code(ErrOom) && old(length) == old(capacity) && capacity == old(capacity) && Contents() == old(Contents())
      ensures exit == Returns && length != old(length) ==>
        && r == AsInt32(old(length))
        && length == old(length) + 1
        && Contents() == old(Contents()) + [CopyWith(old(typeData.copyFn), val)]
        && capacity == (if old(length) == old(capacity) then GrownCapacity(old(capacity)) else old(capacity))
      ensures old(length) < old(capacity) ==> exit == Returns && length == old(length) + 1
      ensures old(kind) == Stack && old(length) == old(capacity) ==> exit == Returns && length == old(length)
    {
      if length == capacity {
        var err := Grow();
        if err != ErrNone {
          return Code(err), Returns;
        }
        if length >= capacity {
          return 0, Undefined;
        }
      }
      elems[length] := CopyWith(typeData.copyFn, val);
      r := AsInt32(length);
      length := length + 1;
      exit := Returns;
    }

    /**
     * `ev_vec_append`: `ev_vec_setlen(length + n)`, then the `n` elements of `arr` are copied
     * bytewise (`copy_fn` is not used). Returns the old length as a `u32`, or the error code 1.
     */
    method Append(arr: seq<T>, n: nat) returns (r: nat, exit: Exit)
      requires Valid() && n <= |arr|
      modifies this, elems
      ensures kind == old(kind) && typeData == old(typeData) && freed == old(freed)
      ensures exit == Returns || exit == Hangs
      ensures exit == Hangs <==> old(kind) == Heap && old(length) + n > old(capacity) && old(capacity) < 2
      ensures exit == Returns ==> Valid()
      ensures exit == Returns && length == old(length) + n ==>
        r == AsU32(old(length)) && Contents() == old(Contents()) + arr[..n]
      ensures exit == Returns && length != old(length) + n ==>
        r == Code(ErrOom) && length == old(length) && old(length) + n > old(capacity) && Contents() == old(Contents())
      ensures old(kind) == Stack && old(length) + n > old(capacity) ==> exit == Returns && length == old(length)
    {
      var oldLen := length;
      var err, x := SetLen(oldLen + n);
      if x != Returns {
        return 0, x;
      }
      if err != ErrNone {
        return Code(err), Returns;
      }
      forall j | 0 <= j < n {
        elems[oldLen + j] := arr[j];
      }
      assert Contents() == old(Contents()) + arr[..n];
      return AsU32(oldLen), Returns;
    }

    /**
     * `ev_vec_pop`. With a non-NULL `out` (`wantOut`) the last element is copied out (through
     * `copy_fn` if set); with NULL it is handed to `free_fn` if set. The length drops by one.
     * The emptiness of the vector is not checked: the last slot is then outside the block.
     */
    method Pop(wantOut: bool) returns (err: VecError, out: Option<T>, exit: Exit)
      requires Valid()
      modifies this
      ensures Valid()
      ensures elems == old(elems) && capacity == old(capacity) && kind == old(kind) && typeData == old(typeData)
      ensures exit == Returns || exit == Undefined
      ensures exit == Undefined <==> old(length) == 0
      ensures exit == Returns ==> err == ErrNone && length == old(length) - 1 && Contents() == old(Contents())[..length]
      ensures exit == Returns && wantOut ==>
        out == Some(CopyWith(typeData.copyFn, old(elems[length - 1]))) && freed == old(freed)
      ensures exit == Returns && !wantOut ==>
        out == None && freed == old(freed) + (if typeData.freeFn.Some? then [old(elems[length - 1])] else [])
    {
      if length == 0 {
        return ErrNone, None, Undefined;
      }
      var last := elems[length - 1];
      if wantOut {
        out := Some(CopyWith(typeData.copyFn, last));
      } else {
        out := None;
        if typeData.freeFn.Some? {
          freed := freed + [last];
        }
      }
      length := length - 1;
      return ErrNone, out, Returns;
    }

    /** The free loop shared by `ev_vec_clear` and `ev_vec_fini`: `free_fn` on every live element. */
    method FreeElements()
      requires Valid()
      modifies this
      ensures elems == old(elems) && length == old(length) && capacity == old(capacity)
      ensures kind == old(kind) && typeData == old(typeData)
      ensures freed == old(freed) + FreedBy(typeData, Contents())
    {
      if typeData.freeFn.Some? {
        var i: nat := 0;
        var elem := IterBegin();
        hide IterAfter, IterEnd, IterNext;
        while elem != IterEnd()
          invariant elems == old(elems) && length == old(length) && capacity == old(capacity)
          invariant kind == old(kind) && typeData == old(typeData)
          invariant i <= length && elem == IterAfter(i)
          invariant typeData.size == 0 ==> i == 0
          invariant freed == old(freed) + elems[..i]
          decreases length - i
        {
          IterLoopStep(i);
          freed := freed + [elems[i]];
          assert elems[..i + 1] == elems[..i] + [elems[i]];
          elem := IterNext(elem);
          i := i + 1;
        }
        IterLoopEnd(i);
      }
    }

    /** `ev_vec_clear`: every live element to `free_fn`, then length 0; capacity and block stay. */
    method Clear() returns (r: nat)
      requires Valid()
      modifies this
      ensures Valid() && r == 0 && length == 0
      ensures elems == old(elems) && capacity == old(capacity) && kind == old(kind) && typeData == old(typeData)
      ensures freed == old(freed) + FreedBy(old(typeData), old(Contents()))
    {
      FreeElements();
      length := 0;
      return 0;
    }

    /**
     * `ev_vec_fini`: every live element to `free_fn`; a heap block is released; the handle
     * becomes the shared empty stack vector (length and capacity 0).
     */
    method Fini()
      requires Valid()
      modifies this
      ensures Valid() && length == 0 && capacity == 0 && kind == Stack && typeData == old(typeData)
      ensures freed == old(freed) + FreedBy(old(typeData), old(Contents()))
    {
      FreeElements();
      elems := new T[0];
      length := 0;
      capacity := 0;
      kind := Stack;
    }
  }
}
