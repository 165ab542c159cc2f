/**
 * The type descriptor `EvTypeData` and its generator `TYPEDATA_GEN`.
 *
 * A descriptor records an element type's size and alignment, four optional operations
 * (copy, free, hash, equal) and two distinguished values (default, invalid). In C the
 * operations are function pointers that may be NULL; here each is an `Option` of an
 * operation value. The operations that `EV_REGISTER_TYPE` defines for a type are the
 * `Default*` constructors; any other named function is a `User*` constructor holding
 * its behaviour as a total function.
 */
module Types {
  import Hash

  datatype Option<T> = None | Some(value: T)

  /** A copy operation `copy_fn(dst, src)`, described by the value it writes to `dst`. */
  datatype CopyOp<!T> = DefaultCopy | UserCopy(copy: T -> T)

  /** A free operation `free_fn(self)`; its effect lies outside the model, so a user one is known by its name. */
  datatype FreeOp = DefaultFree | UserFree(name: string)

  /** A hash operation `hash_fn(self, seed)`. */
  datatype HashOp<!T> = DefaultHash | UserHash(hash: (T, bv64) -> bv64)

  /** An equality operation `equal_fn(self, other)`. */
  datatype EqualOp<!T> = DefaultEqual | UserEqual(equal: (T, T) -> bool)

  /**
   * What a call through a hash operation leaves its caller. `NoValue` is a function that
   * has computed `discarded` but returns nothing, so the caller reads an indeterminate value.
   */
  datatype HashOutcome = Returned(hash: bv64) | NoValue(discarded: bv64)

  /** `EvTypeData`. `size` and `alignment` are `u32` in C. */
  datatype TypeData<!T> = TypeData(
    size: nat,
    alignment: nat,
    copyFn: Option<CopyOp<T>>,
    freeFn: Option<FreeOp>,
    hashFn: Option<HashOp<T>>,
    equalFn: Option<EqualOp<T>>,
    defaultVal: T,
    invalidVal: T)

  /** The value a copy operation writes; the default one is the assignment `*dst = *src`. */
  function RunCopy<T>(op: CopyOp<T>, src: T): T
  {
    match op
    case DefaultCopy => src
    case UserCopy(f) => f(src)
  }

  /** The answer of an equality operation; the default one compares the values with `==`. */
  function RunEqual<T(==)>(op: EqualOp<T>, self: T, other: T): bool
  {
    match op
    case DefaultEqual => self == other
    case UserEqual(f) => f(self, other)
  }

  /**
   * A call of a hash operation on an object whose representation is `bytes` (its
   * `sizeof(T)` bytes). The default hash runs `ev_hash_murmur3` over those bytes with the
   * seed, but it is declared `void`, so the hash it computes never reaches the caller.
   */
  function RunHash<T>(op: HashOp<T>, self: T, bytes: seq<bv8>, seed: bv64): HashOutcome
    requires |bytes| < Hash.U32_LIMIT
  {
    match op
    case DefaultHash => NoValue(Hash.HashMurmur3(bytes, |bytes|, seed))
    case UserHash(f) => Returned(f(self, seed))
  }

  /** The result a caller of `hash_fn` can rely on. */
  function Result(o: HashOutcome): Option<bv64> {
    match o
    case Returned(h) => Some(h)
    case NoValue(_) => None
  }

  /** The default hash gives its caller nothing to rely on, whatever the object and the seed. */
  lemma DefaultHashReturnsNothing<T>(self: T, bytes: seq<bv8>, seed: bv64)
    requires |bytes| < Hash.U32_LIMIT
    ensures Result(RunHash(DefaultHash, self, bytes, seed)) == None
  {
  }

  /** One argument of `TYPEDATA_GEN`: `COPY(f)`, `FREE(f)`, `HASH(f)`, `EQUAL(f)`, `DEFAULT(...)` or `INVALID(...)`. */
  datatype Override<!T> =
    | WithCopy(copy: CopyOp<T>)
    | WithFree(free: FreeOp)
    | WithHash(hash: HashOp<T>)
    | WithEqual(equal: EqualOp<T>)
    | WithDefault(value: T)
    | WithInvalid(value: T)

  /** The fields of a descriptor that an override can set. */
  datatype Field = CopyField | FreeField | HashField | EqualField | DefaultField | InvalidField

  /** The content of one such field. */
  datatype Slot<!T> =
    | CopySlot(copy: Option<CopyOp<T>>)
    | FreeSlot(free: Option<FreeOp>)
    | HashSlot(hash: Option<HashOp<T>>)
    | EqualSlot(equal: Option<EqualOp<T>>)
    | ValueSlot(value: T)

  function Get<T>(td: TypeData<T>, f: Field): Slot<T> {
    match f
    case CopyField => CopySlot(td.copyFn)
    case FreeField => FreeSlot(td.freeFn)
    case HashField => HashSlot(td.hashFn)
    case EqualField => EqualSlot(td.equalFn)
    case DefaultField => ValueSlot(td.defaultVal)
    case InvalidField => ValueSlot(td.invalidVal)
  }

  /** The field an override designates. */
  function Target<T>(o: Override<T>): Field {
    match o
    case WithCopy(_) => CopyField
    case WithFree(_) => FreeField
    case WithHash(_) => HashField
    case WithEqual(_) => EqualField
    case WithDefault(_) => DefaultField
    case WithInvalid(_) => InvalidField
  }

  /** What an override stores in the field it designates. */
  function Payload<T>(o: Override<T>): Slot<T> {
    match o
    case WithCopy(c) => CopySlot(Some(c))
    case WithFree(f) => FreeSlot(Some(f))
    case WithHash(h) => HashSlot(Some(h))
    case WithEqual(e) => EqualSlot(Some(e))
    case WithDefault(v) => ValueSlot(v)
    case WithInvalid(v) => ValueSlot(v)
  }

  /** One designated initialiser `.field = value`, applied to the initialiser list built so far. */
  function Apply<T>(td: TypeData<T>, o: Override<T>): (r: TypeData<T>)
    ensures Get(r, Target(o)) == Payload(o)
    ensures forall f :: f != Target(o) ==> Get(r, f) == Get(td, f)
    ensures r.size == td.size && r.alignment == td.alignment
  {
    match o
    case WithCopy(c) => td.(copyFn := Some(c))
    case WithFree(f) => td.(freeFn := Some(f))
    case WithHash(h) => td.(hashFn := Some(h))
    case WithEqual(e) => td.(equalFn := Some(e))
    case WithDefault(v) => td.(defaultVal := v)
    case WithInvalid(v) => td.(invalidVal := v)
  }

  /** The overrides applied in the order they are written. */
  function ApplyAll<T>(td: TypeData<T>, ovs: seq<Override<T>>): TypeData<T>
    decreases |ovs|
  {
    if ovs == [] then td else ApplyAll(Apply(td, ovs[0]), ovs[1..])
  }

  /**
   * The initialiser list `TYPEDATA_GEN(T, ...)` expands to: `sizeof(T)`, the alignment,
   * T's four DEFAULT operations and a zero-initialised `T` as default and invalid value,
   * followed by one designated initialiser per argument.
   */
  function TypeDataGen<T>(size: nat, alignment: nat, zero: T, ovs: seq<Override<T>>): TypeData<T> {
    ApplyAll(TypeData(size, alignment, Some(DefaultCopy), Some(DefaultFree), Some(DefaultHash),
                      Some(DefaultEqual), zero, zero), ovs)
  }

  /** Reference reading of an initialiser list: the LAST override that designates `f`, if any. */
  function LastFor<T>(ovs: seq<Override<T>>, f: Field): Option<Override<T>>
    decreases |ovs|
  {
    if ovs == [] then None
    else if Target(ovs[|ovs| - 1]) == f then Some(ovs[|ovs| - 1])
    else LastFor(ovs[..|ovs| - 1], f)
  }

  /** Taking the first override off the list: the last one for `f` is in the rest, or it is the first one. */
  lemma {:induction false} LastForFront<T>(ovs: seq<Override<T>>, f: Field)
    requires ovs != []
    ensures LastFor(ovs, f) ==
      (if LastFor(ovs[1..], f).Some? then LastFor(ovs[1..], f)
       else if Target(ovs[0]) == f then Some(ovs[0]) else None)
    decreases |ovs|
  {
    if |ovs| > 1 {
      var init := ovs[..|ovs| - 1];
      assert init[1..] == ovs[1..][..|ovs[1..]| - 1];
      assert ovs[1..][|ovs[1..]| - 1] == ovs[|ovs| - 1];
      if Target(ovs[|ovs| - 1]) != f {
        LastForFront(init, f);
      }
    }
  }

  /**
   * Applying an initialiser list: every field holds what the last override designating it
   * stores, and the starting value when no override designates it.
   */
  lemma {:induction false} ApplyAllField<T>(td: TypeData<T>, ovs: seq<Override<T>>, f: Field)
    ensures Get(ApplyAll(td, ovs), f) ==
      (if LastFor(ovs, f).Some? then Payload(LastFor(ovs, f).value) else Get(td, f))
    decreases |ovs|
  {
    if ovs != [] {
      ApplyAllField(Apply(td, ovs[0]), ovs[1..], f);
      LastForFront(ovs, f);
    }
  }

  /** Overrides never touch the size or the alignment. */
  lemma {:induction false} ApplyAllLayout<T>(td: TypeData<T>, ovs: seq<Override<T>>)
    ensures ApplyAll(td, ovs).size == td.size && ApplyAll(td, ovs).alignment == td.alignment
    decreases |ovs|
  {
    if ovs != [] {
      ApplyAllLayout(Apply(td, ovs[0]), ovs[1..]);
    }
  }

  /**
   * `TYPEDATA_GEN`: size and alignment are those of the type; each operation is the last
   * override naming it, else the type's DEFAULT one; default and invalid values are the last
   * `DEFAULT(...)` / `INVALID(...)`, else zero.
   */
  lemma TypeDataGenFields<T>(size: nat, alignment: nat, zero: T, ovs: seq<Override<T>>)
    ensures TypeDataGen(size, alignment, zero, ovs).size == size
    ensures TypeDataGen(size, alignment, zero, ovs).alignment == alignment
    ensures Get(TypeDataGen(size, alignment, zero, ovs), CopyField) ==
      (if LastFor(ovs, CopyField).Some? then Payload(LastFor(ovs, CopyField).value) else CopySlot(Some(DefaultCopy)))
    ensures Get(TypeDataGen(size, alignment, zero, ovs), FreeField) ==
      (if LastFor(ovs, FreeField).Some? then Payload(LastFor(ovs, FreeField).value) else FreeSlot(Some(DefaultFree)))
    ensures Get(TypeDataGen(size, alignment, zero, ovs), HashField) ==
      (if LastFor(ovs, HashField).Some? then Payload(LastFor(ovs, HashField).value) else HashSlot(Some(DefaultHash)))
    ensures Get(TypeDataGen(size, alignment, zero, ovs), EqualField) ==
      (if LastFor(ovs, EqualField).Some? then Payload(LastFor(ovs, EqualField).value) else EqualSlot(Some(DefaultEqual)))
    ensures Get(TypeDataGen(size, alignment, zero, ovs), DefaultField) ==
      (if LastFor(ovs, DefaultField).Some? then Payload(LastFor(ovs, DefaultField).value) else ValueSlot(zero))
    ensures Get(TypeDataGen(size, alignment, zero, ovs), InvalidField) ==
      (if LastFor(ovs, InvalidField).Some? then Payload(LastFor(ovs, InvalidField).value) else ValueSlot(zero))
  {
    var base := TypeData(size, alignment, Some(DefaultCopy), Some(DefaultFree), Some(DefaultHash),
                         Some(DefaultEqual), zero, zero);
    ApplyAllLayout(base, ovs);
    ApplyAllField(base, ovs, CopyField);
    ApplyAllField(base, ovs, FreeField);
    ApplyAllField(base, ovs, HashField);
    ApplyAllField(base, ovs, EqualField);
    ApplyAllField(base, ovs, DefaultField);
    ApplyAllField(base, ovs, InvalidField);
  }

  /** An override list never makes an operation NULL: every generated descriptor has all four. */
  lemma TypeDataGenHasAllOps<T>(size: nat, alignment: nat, zero: T, ovs: seq<Override<T>>)
    ensures TypeDataGen(size, alignment, zero, ovs).copyFn.Some?
    ensures TypeDataGen(size, alignment, zero, ovs).freeFn.Some?
    ensures TypeDataGen(size, alignment, zero, ovs).hashFn.Some?
    ensures TypeDataGen(size, alignment, zero, ovs).equalFn.Some?
  {
    TypeDataGenFields(size, alignment, zero, ovs);
    var td := TypeDataGen(size, alignment, zero, ovs);
    assert Get(td, CopyField).copy.Some?;
    assert Get(td, FreeField).free.Some?;
    assert Get(td, HashField).hash.Some?;
    assert Get(td, EqualField).equal.Some?;
  }

  /** No override in the list designates `f`. */
  ghost predicate Untouched<T>(ovs: seq<Override<T>>, f: Field) {
    forall i :: 0 <= i < |ovs| ==> Target(ovs[i]) != f
  }

  /** A field that no override designates has no last override. */
  lemma {:induction false} LastForAbsent<T>(ovs: seq<Override<T>>, f: Field)
    requires Untouched(ovs, f)
    ensures LastFor(ovs, f) == None
    decreases |ovs|
  {
    if ovs != [] {
      var init := ovs[..|ovs| - 1];
      assert forall i :: 0 <= i < |init| ==> init[i] == ovs[i];
      LastForAbsent(init, f);
    }
  }

  /**
   * A descriptor `TYPEDATA_GEN` builds without `COPY`, `EQUAL` or `HASH` arguments behaves as
   * `EV_REGISTER_TYPE`'s defaults: copying yields the source value, equality is `==`, and a hash
   * call leaves its caller no value.
   */
  lemma DefaultOpsWithoutOverrides<T>(size: nat, alignment: nat, zero: T, ovs: seq<Override<T>>,
                                           a: T, b: T, bytes: seq<bv8>, seed: bv64)
    requires Untouched(ovs, CopyField) && Untouched(ovs, EqualField) && Untouched(ovs, HashField)
    requires |bytes| < Hash.U32_LIMIT
    ensures TypeDataGen(size, alignment, zero, ovs).copyFn == Some(DefaultCopy)
    ensures TypeDataGen(size, alignment, zero, ovs).equalFn == Some(DefaultEqual)
    ensures TypeDataGen(size, alignment, zero, ovs).hashFn == Some(DefaultHash)
    ensures RunCopy(TypeDataGen(size, alignment, zero, ovs).copyFn.value, a) == a
    ensures RunEqual(TypeDataGen(size, alignment, zero, ovs).equalFn.value, a, b) <==> a == b
    ensures Result(RunHash(TypeDataGen(size, alignment, zero, ovs).hashFn.value, a, bytes, seed)) == None
  {
    TypeDataGenFields(size, alignment, zero, ovs);
    LastForAbsent(ovs, CopyField);
    LastForAbsent(ovs, EqualField);
    LastForAbsent(ovs, HashField);
    var td := TypeDataGen(size, alignment, zero, ovs);
    assert Get(td, CopyField) == CopySlot(Some(DefaultCopy));
    assert Get(td, EqualField) == EqualSlot(Some(DefaultEqual));
    assert Get(td, HashField) == HashSlot(Some(DefaultHash));
  }
}
