/**
 * The dynamic string of ev_str.h.
 *
 * In C an `evstring` is a pointer to its bytes, with a header (`length`, `size`, and whether
 * the block is a stack literal or from `malloc`) in front of them. Here the header is the
 * fields of an `EvString` object and the bytes after the header are the array `buf`.
 *
 * `size` is what the header records, and it is not always the size of the block:
 * `evstring_new_impl` counts the header (`size = H + len + 1`), a literal does not
 * (`size = len + 1`), and `evstring_setSize(n)` reallocates `H + n` bytes but records `n`.
 * In every case the data area holds between `size - H` and `size` bytes, which is `Sound()`.
 */
module Str {
  import opened Types
  import opened Runtime
  import opened StrText

  /** `sizeof(struct evstr_meta_t)` in a release build: `length`, `size` and the allocation kind, padded. */
  const H: nat := 24

  const U64_LIMIT: nat := 0x1_0000_0000_0000_0000

  /** `evstring_error_t`. */
  datatype StrError = StrOk | StrOom

  /** The numeric value of an error. */
  function Code(e: StrError): int {
    match e
    case StrOk => 0
    case StrOom => -1
  }

  /** Where the header and the bytes live: an `evstr` compound literal or a `malloc` block. */
  datatype Allocation = Stack | Heap

  /** The size `evstring_grow` asks for: `size * 3 / 2` in integer arithmetic. */
  function GrownSize(size: nat): (r: nat)
    ensures r >= size
    ensures r > size <==> size >= 2
  {
    size * 3 / 2
  }

  /** `evstring_getSpace`: `size - length - 1 - H` in unsigned 64-bit arithmetic. */
  function Space(size: nat, length: nat): (r: nat)
    ensures r < U64_LIMIT
    ensures length + 1 + H <= size < U64_LIMIT ==> r == size - length - 1 - H
    ensures size < length + 1 + H < U64_LIMIT + size ==> r == U64_LIMIT - (length + 1 + H - size)
  {
    (size - length - 1 - H) % U64_LIMIT
  }

  /** A string just made by `evstring_new_impl` has no space left. */
  lemma NewStringSpace(len: nat)
    requires H + len + 1 < U64_LIMIT
    ensures Space(H + len + 1, len) == 0
  {
  }

  /** On a literal the subtraction wraps: `getSpace` reports 2^64 - H bytes of space. */
  lemma LiteralSpace(len: nat)
    ensures Space(len + 1, len) == U64_LIMIT - H
  {
  }

  /** After `setSize(n)` the data area holds `n` bytes, `H` more than `getSpace` admits to. */
  lemma ResizedSpace(n: nat, length: nat)
    requires length + 1 + H <= n < U64_LIMIT
    ensures n - length - 1 == Space(n, length) + H
  {
  }

  class EvString {
    /** The bytes after the header. */
    var buf: array<char>
    var length: nat
    var size: nat
    var kind: Allocation
    /** Whether `evstring_free` has returned the block to the allocator. */
    ghost var released: bool

    /** The recorded size is the data area, or the data area and the header, or in between. */
    ghost predicate Sound()
      reads this
    {
      buf.Length <= size <= H + buf.Length
    }

    /** The bytes `[0, length]` lie in the data area, so the string and its terminator fit. */
    ghost predicate Valid()
      reads this
    {
      Sound() && length < buf.Length
    }

    /** The string's bytes. */
    function Contents(): seq<char>
      reads this, buf
      requires Valid()
    {
      buf[..length]
    }

    /** `evstring_getLength`. */
    function GetLength(): (r: nat)
      reads this, buf
      ensures Valid() ==> r == |Contents()|
    {
      length
    }

    /** `evstring_getSpace`. */
    function GetSpace(): (r: nat)
      reads this
    {
      Space(size, length)
    }

    /** The block `evstring_new_impl` fills in: `len` bytes, a NUL, and a heap header with `size = H + len + 1`. */
    constructor HeapBlock(bytes: seq<char>)
      ensures Valid() && fresh(buf)
      ensures kind == Heap && length == |bytes| && size == H + |bytes| + 1 && !released
      ensures buf[..] == bytes + ['\0']
    {
      var b := new char[|bytes| + 1];
      forall j | 0 <= j < |bytes| {
        b[j] := bytes[j];
      }
      b[|bytes|] := '\0';
      buf := b;
      length := |bytes|;
      size := H + |bytes| + 1;
      kind := Heap;
      released := false;
      new;
      assert buf[..] == bytes + ['\0'];
    }

    /** `evstr(lit)`: a stack string whose `size` is `sizeof(lit)`, the length plus the NUL, excluding the header. */
    constructor Literal(lit: seq<char>)
      ensures Valid() && fresh(buf)
      ensures kind == Stack && length == |lit| && size == |lit| + 1 && !released
      ensures buf[..] == lit + ['\0']
    {
      buf := new char[|lit| + 1](j => if 0 <= j < |lit| then lit[j] else '\0');
      length := |lit|;
      size := |lit| + 1;
      kind := Stack;
      released := false;
      new;
      assert buf[..] == lit + ['\0'];
    }

    /** `evstring_new_impl(data, len)`: copies `len` bytes of `data`; the `assert(p)` fails when `malloc` does. */
    static method NewImpl(data: seq<char>, len: nat) returns (s: EvString?, exit: Exit)
      requires len <= |data|
      ensures exit == Returns || exit == AssertFails
      ensures exit == Returns ==> s != null && fresh(s) && fresh(s.buf) && s.Valid()
      ensures exit == Returns ==> s.kind == Heap && s.size == H + len + 1 && !s.released
      ensures exit == Returns ==> s.Contents() == data[..len] && s.buf[s.length] == '\0'
    {
      var ok := Allocate();
      if !ok {
        return null, AssertFails;
      }
      s := new EvString.HeapBlock(data[..len]);
      assert s.buf[..][..len] == data[..len];
      return s, Returns;
    }

    /** `evstring_newFromStr`: a heap copy of the bytes before the first NUL. */
    static method NewFromStr(str: seq<char>) returns (s: EvString?, exit: Exit)
      requires '\0' in str
      ensures exit == Returns || exit == AssertFails
      ensures exit == Returns ==> s != null && fresh(s) && fresh(s.buf) && s.Valid() && s.kind == Heap
      ensures exit == Returns ==> s.Contents() == str[..Strlen(str)] && '\0' !in s.Contents()
      ensures exit == Returns ==> s.size == H + Strlen(str) + 1 && s.buf[s.length] == '\0' && !s.released
    {
      s, exit := NewImpl(str, Strlen(str));
    }

    /** `evstring_newFromView`: a heap copy of the bytes a view covers. */
    static method NewFromView(data: seq<char>, v: View) returns (s: EvString?, exit: Exit)
      requires v.offset + v.len <= |data|
      ensures exit == Returns || exit == AssertFails
      ensures exit == Returns ==> s != null && fresh(s) && fresh(s.buf) && s.Valid() && s.kind == Heap
      ensures exit == Returns ==> s.Contents() == Window(data, v) && s.size == H + v.len + 1
      ensures exit == Returns ==> s.buf[s.length] == '\0' && !s.released
    {
      s, exit := NewImpl(data[v.offset..], v.len);
      if exit == Returns {
        assert data[v.offset..][..v.len] == Window(data, v);
      }
    }

    /** `evstring_free`: a heap block goes back to the allocator; a literal is left alone. */
    method Free()
      modifies this
      ensures released == (old(released) || kind == Heap)
      ensures buf == old(buf) && length == old(length) && size == old(size) && kind == old(kind)
    {
      if kind == Heap {
        released := true;
      }
    }

    /**
     * `evstring_setSize(newsize)`: a literal cannot be resized; an equal size is kept; otherwise
     * `realloc` to `H + newsize` bytes keeps the first bytes and `size` becomes `newsize`.
     */
    method SetSize(newsize: nat) returns (err: StrError)
      requires Sound()
      modifies this
      ensures Sound()
      ensures length == old(length) && kind == old(kind) && released == old(released)
      ensures old(kind) == Stack ==> err == StrOom
      ensures old(kind) == Heap && newsize == old(size) ==> err == StrOk && buf == old(buf)
      ensures err == StrOom ==> size == old(size) && buf == old(buf)
      ensures err == StrOk ==> size == newsize
      ensures err == StrOk && buf != old(buf) ==> buf.Length == newsize
      ensures buf == old(buf) || fresh(buf)
      ensures forall j :: 0 <= j < old(buf.Length) && j < buf.Length ==> buf[j] == old(buf[j])
    {
      if kind == Stack {
        return StrOom;
      }
      if size == newsize {
        return StrOk;
      }
      var ok := Allocate();
      if !ok {
        return StrOom;
      }
      var block := new char[newsize];
      var kept := if newsize < buf.Length then newsize else buf.Length;
      forall j | 0 <= j < kept {
        block[j] := buf[j];
      }
      buf := block;
      size := newsize;
      return StrOk;
    }

    /** `evstring_grow`: `setSize(size * 3 / 2)`, which leaves a size below 2 where it is. */
    method Grow() returns (err: StrError)
      requires Sound()
      modifies this
      ensures Sound()
      ensures length == old(length) && kind == old(kind) && released == old(released)
      ensures old(kind) == Stack ==> err == StrOom
      ensures err == StrOom ==> size == old(size) && buf == old(buf)
      ensures err == StrOk ==> size == GrownSize(old(size))
      ensures old(kind) == Heap && old(size) < 2 ==> err == StrOk && size == old(size) && buf == old(buf)
      ensures size >= old(size) && buf.Length >= old(buf.Length)
      ensures buf == old(buf) || fresh(buf)
      ensures forall j :: 0 <= j < old(buf.Length) ==> buf[j] == old(buf[j])
    {
      err := SetSize(GrownSize(size));
    }

    /** `evstring_addSpace(space)`: `setSize(size + space)`. */
    method AddSpace(space: nat) returns (err: StrError)
      requires Sound()
      modifies this
      ensures Sound()
      ensures length == old(length) && kind == old(kind) && released == old(released)
      ensures old(kind) == Stack ==> err == StrOom
      ensures err == StrOom ==> size == old(size) && buf == old(buf)
      ensures err == StrOk ==> size == old(size) + space
      ensures size >= old(size) && buf.Length >= old(buf.Length)
      ensures buf == old(buf) || fresh(buf)
      ensures forall j :: 0 <= j < old(buf.Length) ==> buf[j] == old(buf[j])
    {
      err := SetSize(size + space);
    }

    /**
     * Grows until `H + needed <= size`, as the loops of `setLength` and `push_impl` do. A grow
     * that succeeds without changing the size repeats for ever (`Hangs`).
     */
    method GrowTo(needed: nat) returns (err: StrError, exit: Exit)
      requires Sound()
      modifies this
      ensures Sound()
      ensures length == old(length) && kind == old(kind) && released == old(released)
      ensures size >= old(size) && buf.Length >= old(buf.Length)
      ensures buf == old(buf) || fresh(buf)
      ensures forall j :: 0 <= j < old(buf.Length) ==> buf[j] == old(buf[j])
      ensures exit == Returns || exit == Hangs
      ensures exit == Hangs <==> old(kind) == Heap && H + needed > old(size) && old(size) < 2
      ensures exit == Returns && err == StrOk ==> H + needed <= size
      ensures exit == Returns && err == StrOom ==> H + needed > old(size)
      ensures old(kind) == Stack && H + needed > old(size) ==> exit == Returns && err == StrOom
      ensures H + needed <= old(size) ==> exit == Returns && err == StrOk && size == old(size) && buf == old(buf)
    {
      while H + needed > size
        invariant Sound()
        invariant length == old(length) && kind == old(kind) && released == old(released)
        invariant size >= old(size) && buf.Length >= old(buf.Length)
        invariant buf == old(buf) || fresh(buf)
        invariant forall j :: 0 <= j < old(buf.Length) ==> buf[j] == old(buf[j])
        invariant H + needed <= old(size) ==> size == old(size) && buf == old(buf)
        invariant kind == Stack || old(size) < 2 ==> size == old(size) && buf == old(buf)
        decreases H + needed - size
      {
        var before := size;
        var e := Grow();
        if e != StrOk {
          return e, Returns;
        }
        if size == before {
          return StrOk, Hangs;
        }
      }
      return StrOk, Returns;
    }

    /**
     * `evstring_setLength(n)`: nothing to do when `n` is the length; otherwise grow until
     * `H + n + 1 <= size` and set the length, writing no terminator and no fill.
     */
    method SetLength(n: nat) returns (err: StrError, exit: Exit)
      requires Sound()
      modifies this
      ensures Sound()
      ensures kind == old(kind) && released == old(released)
      ensures size >= old(size) && buf.Length >= old(buf.Length)
      ensures buf == old(buf) || fresh(buf)
      ensures forall j :: 0 <= j < old(buf.Length) ==> buf[j] == old(buf[j])
      ensures exit == Returns || exit == Hangs
      ensures n == old(length) ==> exit == Returns && err == StrOk && size == old(size) && buf == old(buf)
      ensures exit == Hangs <==> n != old(length) && old(kind) == Heap && H + n + 1 > old(size) && old(size) < 2
      ensures exit == Returns && err == StrOk ==> length == n
      ensures exit == Returns && err == StrOk && n != old(length) ==> H + n + 1 <= size && Valid()
      ensures exit == Hangs || err == StrOom ==> length == old(length)
      ensures exit == Returns && err == StrOom ==> H + n + 1 > old(size)
      ensures old(kind) == Stack && n != old(length) && H + n + 1 > old(size) ==> exit == Returns && err == StrOom
      ensures exit == Returns && err == StrOk && old(Valid()) && n <= old(length) ==> Contents() == old(Contents())[..n]
    {
      if n == length {
        return StrOk, Returns;
      }
      err, exit := GrowTo(n + 1);
      if exit == Returns && err == StrOk {
        length := n;
      }
    }

    /** `evstring_clear`: `setLength(0)`, whose error is dropped. */
    method Clear() returns (exit: Exit)
      requires Sound()
      modifies this
      ensures Sound()
      ensures kind == old(kind) && released == old(released)
      ensures size >= old(size) && buf.Length >= old(buf.Length)
      ensures buf == old(buf) || fresh(buf)
      ensures forall j :: 0 <= j < old(buf.Length) ==> buf[j] == old(buf[j])
      ensures exit == Returns || exit == Hangs
      ensures exit == Hangs <==> old(length) != 0 && old(kind) == Heap && H + 1 > old(size) && old(size) < 2
      ensures exit == Returns ==> length == 0 || (length == old(length) && H + 1 > old(size))
      ensures H + 1 <= old(size) ==> exit == Returns && length == 0 && Valid()
    {
      var err;
      err, exit := SetLength(0);
    }

    /**
     * `evstring_push_impl(s, sz, data)`: grow until `H + length + sz + 1 <= size`, copy the
     * `sz` bytes after the old ones and write a NUL after them.
     */
    method PushImpl(sz: nat, data: seq<char>) returns (err: StrError, exit: Exit)
      requires Valid() && sz <= |data|
      modifies this, buf
      ensures kind == old(kind) && released == old(released)
      ensures buf == old(buf) || fresh(buf)
      ensures size >= old(size)
      ensures exit == Returns || exit == Hangs
      ensures exit == Hangs <==> old(kind) == Heap && H + old(length) + sz + 1 > old(size) && old(size) < 2
      ensures exit == Returns ==> Valid()
      ensures exit == Returns && err == StrOk ==>
        length == old(length) + sz && Contents() == old(Contents()) + data[..sz] && buf[length] == '\0'
      ensures exit == Returns && err == StrOom ==> length == old(length) && Contents() == old(Contents())
      ensures exit == Returns && err == StrOom ==> H + old(length) + sz + 1 > old(size)
      ensures old(kind) == Stack && H + old(length) + sz + 1 > old(size) ==> exit == Returns && err == StrOom
    {
      ghost var before := Contents();
      err, exit := GrowTo(length + sz + 1);
      if exit != Returns || err != StrOk {
        assert buf[..length] == before;
        return;
      }
      var start := length;
      forall j | 0 <= j < sz {
        buf[start + j] := data[j];
      }
      length := start + sz;
      buf[length] := '\0';
      assert buf[..length] == before + data[..sz];
    }

    /** `evstring_pushChar`: a one-byte push. */
    method PushChar(c: char) returns (err: StrError, exit: Exit)
      requires Valid()
      modifies this, buf
      ensures kind == old(kind) && released == old(released)
      ensures buf == old(buf) || fresh(buf)
      ensures exit == Returns || exit == Hangs
      ensures exit == Hangs <==> old(kind) == Heap && H + old(length) + 2 > old(size) && old(size) < 2
      ensures exit == Returns ==> Valid()
      ensures exit == Returns && err == StrOk ==> Contents() == old(Contents()) + [c] && buf[length] == '\0'
      ensures exit == Returns && err == StrOom ==> Contents() == old(Contents())
      ensures old(kind) == Stack && H + old(length) + 2 > old(size) ==> exit == Returns && err == StrOom
    {
      err, exit := PushImpl(1, [c]);
    }

    /** `evstring_pushStr`: a push of the bytes before the first NUL. */
    method PushStr(str: seq<char>) returns (err: StrError, exit: Exit)
      requires Valid() && '\0' in str
      modifies this, buf
      ensures kind == old(kind) && released == old(released)
      ensures buf == old(buf) || fresh(buf)
      ensures exit == Returns || exit == Hangs
      ensures exit == Hangs <==> old(kind) == Heap && H + old(length) + Strlen(str) + 1 > old(size) && old(size) < 2
      ensures exit == Returns ==> Valid()
      ensures exit == Returns && err == StrOk ==> Contents() == old(Contents()) + str[..Strlen(str)] && buf[length] == '\0'
      ensures exit == Returns && err == StrOom ==> Contents() == old(Contents())
      ensures old(kind) == Stack && H + old(length) + Strlen(str) + 1 > old(size) ==> exit == Returns && err == StrOom
    {
      err, exit := PushImpl(Strlen(str), str);
    }

    /**
     * `evstring_pushView`: a push of the bytes a view of `src` covers. It `assert`s that the
     * view is not of the string being pushed onto, which a reallocation would leave dangling.
     */
    method PushView(src: EvString, v: View) returns (err: StrError, exit: Exit)
      requires Valid() && v.offset + v.len <= src.buf.Length
      modifies this, buf
      ensures kind == old(kind) && released == old(released)
      ensures buf == old(buf) || fresh(buf)
      ensures exit == AssertFails <==> src == this
      ensures exit == Returns || exit == Hangs || exit == AssertFails
      ensures exit == Hangs <==> src != this && old(kind) == Heap && H + old(length) + v.len + 1 > old(size) && old(size) < 2
      ensures exit == Returns ==> Valid()
      ensures exit == Returns && err == StrOk ==>
        Contents() == old(Contents()) + old(src.buf[v.offset .. v.offset + v.len]) && buf[length] == '\0'
      ensures exit == Returns && err == StrOom ==> Contents() == old(Contents())
      ensures src != this && old(kind) == Stack && H + old(length) + v.len + 1 > old(size) ==> exit == Returns && err == StrOom
    {
      if src == this {
        return StrOk, AssertFails;
      }
      var bytes := src.buf[v.offset .. v.offset + v.len];
      err, exit := PushImpl(v.len, bytes);
      assert bytes[..v.len] == bytes;
    }
  }

  /** Every push onto a fresh `evstr` literal fails with `EV_STR_ERR_OOM`: its size leaves no room for the header. */
  method PushOntoLiteral(lit: seq<char>, c: char) returns (err: StrError, exit: Exit)
    ensures exit == Returns && err == StrOom
  {
    var s := new EvString.Literal(lit);
    err, exit := s.PushChar(c);
  }

  /** A literal at least `H` bytes long can be shortened by `H` bytes or more, but no less. */
  method ShortenLiteral(lit: seq<char>, n: nat) returns (err: StrError, ok: bool)
    requires n < |lit|
    ensures ok <==> n + H <= |lit|
    ensures err == (if ok then StrOk else StrOom)
  {
    var s := new EvString.Literal(lit);
    var exit;
    err, exit := s.SetLength(n);
    ok := err == StrOk;
  }

  /**
   * The body of `findAll`'s loop that stores a view: `results[count++] = v` unless `results` is
   * NULL. With `count` at the end of `results` the store is a write past it (`overflow`).
   */
  method Record(results: array?<View>, count: nat, v: View, ghost done: seq<View>, ghost init: seq<View>)
    returns (next: nat, overflow: bool)
    requires results == null ==> count == 0
    requires results != null ==> |init| == results.Length
    requires results != null ==> count == |done| <= results.Length && results[..] == done + init[count..]
    modifies results
    ensures results == null ==> next == 0 && !overflow
    ensures results != null ==> (overflow <==> count == results.Length)
    ensures results != null && !overflow ==>
      next == |done + [v]| <= results.Length && results[..] == (done + [v]) + init[next..]
  {
    if results == null {
      return 0, false;
    }
    if count >= results.Length {
      return count, true;
    }
    results[count] := v;
    next := count + 1;
    assert results[..] == (done + [v]) + init[next..];
    return next, false;
  }

  /**
   * `evstring_findAll(text, query, results)`: the `findAll` scan over the text's bytes. With
   * `results` NULL the loop still runs but nothing is counted; otherwise each view is stored in
   * turn, and one more than `results` holds is a write past its end (`Undefined`).
   */
  method FindAll(text: seq<char>, query: seq<char>, results: array?<View>) returns (count: nat, exit: Exit)
    modifies results
    ensures exit == Returns || exit == AssertFails || exit == Undefined
    ensures results == null ==> count == 0
    ensures exit == Undefined <==> results != null && |FindAllSpec(text, query).views| > results.Length
    ensures exit == AssertFails <==> exit != Undefined && FindAllSpec(text, query).failed
    ensures exit != Undefined && results != null ==>
      count == |FindAllSpec(text, query).views| && results[..] == FindAllSpec(text, query).views + old(results[..])[count..]
  {
    if |text| == 0 || |query| == 0 || |query| > |text| {
      if results != null {
        assert results[..] == [] + old(results[..])[0..];
      }
      return 0, Returns;
    }
    ghost var all := FindAllSpec(text, query);
    ghost var init := if results == null then [] else results[..];
    ScanStart(text, query);
    count := 0;
    ghost var done: seq<View> := [];
    ghost var b: nat := 0;
    var v := FindFirstImpl(text, View(0, |text|), query, View(0, |query|));
    hide ScanProgress, FindFirstSpec, FindAllSpec, MatchesFrom;
    exit := Returns;
    while v.len != 0
      invariant ScanProgress(text, query, all, done, b)
      invariant v == FindFirstSpec(text, View(b, |text| - b), query, View(0, |query|))
      invariant results == null ==> count == 0
      invariant results != null ==> |init| == results.Length
      invariant results != null ==> count == |done| <= results.Length && results[..] == done + init[count..]
      decreases |text| - b
    {
      ScanRound(text, query, all, done, b);
      var overflow;
      count, overflow := Record(results, count, v, done, init);
      if overflow {
        ScanMore(text, query, all, done, b);
        exit := Undefined;
        break;
      }
      done := done + [v];
      var e := v.offset + v.len;
      if e >= |text| {
        exit := AssertFails;
        break;
      }
      b := e;
      v := FindFirstImpl(text, View(e, |text| - e), query, View(0, |query|));
    }
    if exit == Returns {
      ScanEnd(text, query, all, done, b);
    }
  }

  /**
   * One of `replaceFirst`'s pushes onto its fresh heap result, whose error is dropped: either
   * the bytes are appended (`ok`) or the string is unchanged.
   */
  method PushDroppingError(s: EvString, bytes: seq<char>) returns (ghost ok: bool)
    requires s.Valid() && s.kind == Heap && s.size >= H + 1
    modifies s, s.buf
    ensures s.Valid() && s.kind == Heap && s.size >= H + 1
    ensures s.buf == old(s.buf) || fresh(s.buf)
    ensures s.Contents() == if ok then old(s.Contents()) + bytes else old(s.Contents())
  {
    var err, exit := s.PushImpl(|bytes|, bytes);
    assert bytes[..|bytes|] == bytes;
    ok := err == StrOk;
  }

  /**
   * The `else` branch of `replaceFirst`: a new empty string, then the bytes before the match
   * (when there are any), the replacement, and `slice(text, end, -1)`, whose `assert` fails
   * when the match ends at the last byte.
   */
  method BuildReplacement(text: seq<char>, off: nat, qlen: nat, rep: seq<char>)
    returns (result: EvString?, exit: Exit, ghost complete: bool)
    requires off + qlen <= |text|
    ensures exit == Returns || exit == AssertFails
    ensures off + qlen >= |text| ==> exit == AssertFails
    ensures exit == Returns ==> result != null && fresh(result) && result.Valid() && result.kind == Heap
    ensures exit == Returns && complete ==> result.Contents() == text[..off] + rep + text[off + qlen..]
  {
    complete := true;
    hide EvString.Valid, EvString.Contents;
    result, exit := EvString.NewImpl([], 0);
    if exit != Returns {
      return;
    }
    ghost var ok;
    if off != 0 {
      ok := PushDroppingError(result, text[..off]);
      complete := complete && ok;
    } else {
      assert result.Contents() == text[..off];
    }
    ok := PushDroppingError(result, rep);
    complete := complete && ok;
    var e := off + qlen;
    if e >= |text| {
      return result, AssertFails, complete;
    }
    ok := PushDroppingError(result, text[e..]);
    complete := complete && ok;
  }

  /**
   * `evstring_replaceFirst(text, query, replacement)`. The pushes that build the result drop
   * their errors, so the result is the intended one when every allocation succeeded (`complete`).
   */
  method ReplaceFirst(text: seq<char>, query: seq<char>, rep: seq<char>)
    returns (result: EvString?, exit: Exit, ghost complete: bool)
    ensures exit == Returns || exit == AssertFails
    ensures ReplaceFirstSpec(text, query, rep).ReplaceAssertFails? ==> exit == AssertFails
    ensures exit == Returns ==> ReplaceFirstSpec(text, query, rep).Replaced?
    ensures exit == Returns ==> result != null && fresh(result) && result.Valid() && result.kind == Heap
    ensures exit == Returns && complete ==> result.Contents() == ReplaceFirstSpec(text, query, rep).bytes
    ensures exit == Returns && FindFirst(text, query).value.len == 0 ==> complete
  {
    complete := true;
    var found := FindFirst(text, query);
    if found.None? {
      return null, AssertFails, complete;
    }
    var v := FindFirstImpl(text, View(0, |text|), query, View(0, |query|));
    if v.len == 0 {
      result, exit := EvString.NewImpl(text, |text|);
      assert text[..|text|] == text;
      return;
    }
    result, exit, complete := BuildReplacement(text, v.offset, v.len, rep);
  }
}
