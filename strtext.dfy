/**
 * The text logic of ev_str.h: views and slicing, comparison, and the searches.
 *
 * A string's bytes are a `seq<char>` (one `char` per C `char`). A view
 * (`evstring_view`) is an offset and a length into a string's bytes; its `data`
 * pointer is the string passed alongside it and is not repeated here.
 *
 * The core of every search is `__evstring_findFirst_impl`. Its progress counter is
 * advanced on each byte equal to the next query byte and is never reset, so what it
 * finds is the query as a not necessarily contiguous SUBSEQUENCE of the window; the
 * view it reports is the `qlen` bytes ending where the query was completed.
 */
module StrText {
  import opened Types

  /** `~0ull`, the offset of a view that found nothing. */
  const NOT_FOUND: nat := 0xffff_ffff_ffff_ffff

  datatype View = View(offset: nat, len: nat)

  /** The bytes a view covers. */
  function Window(t: seq<char>, v: View): seq<char>
    requires v.offset + v.len <= |t|
  {
    t[v.offset .. v.offset + v.len]
  }

  // ----- slice -----

  /** `evstring_slice`'s index wrapping: a negative index `i` stands for `len + 1 + i`. */
  function Wrap(len: nat, i: int): int {
    if i < 0 then len + 1 + i else i
  }

  /** The three `assert`s of `evstring_slice`: a non-empty range inside the string. */
  predicate SliceAsserts(len: nat, begin: int, end: int) {
    && 0 <= Wrap(len, begin) < len
    && 0 < Wrap(len, end) <= len
    && Wrap(len, begin) < Wrap(len, end)
  }

  /** `evstring_slice`: the view from the wrapped begin to the wrapped end, or `None` where an `assert` fails. */
  function Slice(len: nat, begin: int, end: int): (r: Option<View>)
    ensures r.Some? <==> SliceAsserts(len, begin, end)
    ensures r.Some? ==> 0 < r.value.len && r.value.offset + r.value.len <= len
  {
    if SliceAsserts(len, begin, end) then Some(View(Wrap(len, begin), Wrap(len, end) - Wrap(len, begin)))
    else None
  }

  /** `slice(s, 0, -1)` is the whole of a non-empty string, and an empty string cannot be sliced. */
  lemma SliceWhole(len: nat)
    ensures Slice(len, 0, -1) == if len > 0 then Some(View(0, len)) else None
  {
  }

  /** A slice to the end (`end` = -1) passes its asserts exactly when it starts inside the string. */
  lemma SliceToEnd(len: nat, begin: nat)
    ensures Slice(len, begin, -1) == if begin < len then Some(View(begin, len - begin)) else None
  {
  }

  /** A slice from the start (`begin` = 0) to a non-negative `end` passes exactly when `end` is inside the string. */
  lemma SliceFromStart(len: nat, end: nat)
    ensures Slice(len, 0, end) == if 0 < end <= len then Some(View(0, end)) else None
  {
  }

  /** Negative indices count from the end: -1 is the length, -2 the last byte, and one below -(len + 1) fails. */
  lemma SliceNegative(len: nat, begin: int, end: int)
    requires begin < 0 && end < 0
    ensures Slice(len, begin, end).Some? <==> -(len as int) - 1 <= begin < end && begin < -1
    ensures Slice(len, begin, end).Some? ==> Slice(len, begin, end).value == View(len + 1 + begin, end - begin)
  {
  }

  // ----- strlen and cmp -----

  /** `strlen`: the index of the first NUL. */
  function Strlen(s: seq<char>): (n: nat)
    requires '\0' in s
    ensures n < |s| && s[n] == '\0'
    ensures forall j :: 0 <= j < n ==> s[j] != '\0'
  {
    if s[0] == '\0' then 0 else 1 + Strlen(s[1..])
  }

  /**
   * `memcmp` over the first `n` bytes. C fixes only the sign of the result; the model
   * returns the difference of the first pair of differing bytes, as common libraries do.
   */
  function Memcmp(a: seq<char>, b: seq<char>, n: nat): (r: int)
    requires n <= |a| && n <= |b|
    ensures r == 0 <==> a[..n] == b[..n]
  {
    if n == 0 then 0
    else if a[0] != b[0] then (a[0] as int) - (b[0] as int)
    else
      var r := Memcmp(a[1..], b[1..], n - 1);
      assert a[..n] == [a[0]] + a[1..][..n - 1];
      assert b[..n] == [b[0]] + b[1..][..n - 1];
      r
  }

  /** `evstring_cmp`: 1 when the lengths differ, else `memcmp` of the bytes. */
  function Cmp(a: seq<char>, b: seq<char>): int {
    if |a| != |b| then 1 else Memcmp(a, b, |a|)
  }

  /** `evstring_cmp` is 0 exactly for equal strings, which makes it a correct equality. */
  lemma CmpZeroIffEqual(a: seq<char>, b: seq<char>)
    ensures Cmp(a, b) == 0 <==> a == b
  {
    if |a| == |b| {
      assert a[..|a|] == a && b[..|b|] == b;
    }
  }

  /** Strings of different lengths compare as 1 in BOTH orders: `evstring_cmp` is no ordering. */
  lemma CmpLengthMismatch(a: seq<char>, b: seq<char>)
    requires |a| != |b|
    ensures Cmp(a, b) == 1 && Cmp(b, a) == 1
  {
  }

  /** `EQUAL_FUNCTION(evstring, Default)`: `evstring_cmp(...) == 0`. */
  function StringEqual(a: seq<char>, b: seq<char>): (r: bool)
    ensures r <==> a == b
  {
    CmpZeroIffEqual(a, b);
    Cmp(a, b) == 0
  }

  /**
   * `TypeData(evstring)`: `TYPEDATA_GEN(evstring, EQUAL(Default))`, with the string's bytes
   * standing for the string. `sizeof(evstring)` and its alignment are those of a pointer (8).
   */
  function StringTypeData(): TypeData<seq<char>> {
    TypeDataGen(8, 8, [], [WithEqual(UserEqual(StringEqual))])
  }

  /** Its equality is content equality, and every other operation is the default one. */
  lemma StringTypeDataOps()
    ensures StringTypeData().equalFn == Some(UserEqual(StringEqual))
    ensures StringTypeData().copyFn == Some(DefaultCopy)
    ensures StringTypeData().freeFn == Some(DefaultFree)
    ensures StringTypeData().hashFn == Some(DefaultHash)
    ensures forall a, b :: RunEqual(StringTypeData().equalFn.value, a, b) <==> a == b
  {
    var ovs := [WithEqual(UserEqual(StringEqual))];
    TypeDataGenFields(8, 8, [], ovs);
    assert ovs[..0] == [];
    assert LastFor(ovs, EqualField) == Some(ovs[0]);
    assert LastFor(ovs, CopyField) == None;
    assert LastFor(ovs, FreeField) == None;
    assert LastFor(ovs, HashField) == None;
  }

  // ----- the greedy subsequence scan -----

  /** The value of `findFirst_impl`'s progress counter after it has scanned `w`. */
  function Greedy(w: seq<char>, qs: seq<char>): (p: nat)
    ensures p <= |qs| && p <= |w|
    decreases |w|
  {
    if w == [] then 0
    else
      var p := Greedy(w[..|w| - 1], qs);
      if p < |qs| && w[|w| - 1] == qs[p] then p + 1 else p
  }

  /** `idx` places the bytes of `qs`, in order, at strictly increasing positions of `w`. */
  ghost predicate Embeds(qs: seq<char>, w: seq<char>, idx: seq<nat>) {
    && |idx| == |qs|
    && (forall k :: 0 <= k < |idx| ==> idx[k] < |w| && w[idx[k]] == qs[k])
    && (forall i, j :: 0 <= i < j < |idx| ==> idx[i] < idx[j])
  }

  /** Reference definition: `qs` is a (not necessarily contiguous) subsequence of `w`. */
  ghost predicate IsSubsequence(qs: seq<char>, w: seq<char>) {
    exists idx :: Embeds(qs, w, idx)
  }

  /** What the counter has matched really occurs in `w`, in order. */
  lemma {:induction false} GreedyWitness(w: seq<char>, qs: seq<char>) returns (idx: seq<nat>)
    ensures Embeds(qs[..Greedy(w, qs)], w, idx)
    decreases |w|
  {
    if w == [] {
      return [];
    }
    var init := w[..|w| - 1];
    var prev := GreedyWitness(init, qs);
    var p := Greedy(init, qs);
    if p < |qs| && w[|w| - 1] == qs[p] {
      idx := prev + [|w| - 1];
      assert forall k :: 0 <= k < p ==> qs[..p + 1][k] == qs[..p][k];
    } else {
      idx := prev;
    }
  }

  /** Greedy matching is optimal: the counter gets at least as far as any embedding of a prefix of `qs`. */
  lemma {:induction false} GreedyOptimal(w: seq<char>, qs: seq<char>, k: nat, idx: seq<nat>)
    requires k <= |qs| && Embeds(qs[..k], w, idx)
    ensures Greedy(w, qs) >= k
    decreases |w|
  {
    if k == 0 {
      return;
    }
    var last := idx[k - 1];
    var init := w[..|w| - 1];
    if last < |w| - 1 {
      assert Embeds(qs[..k], init, idx);
      GreedyOptimal(init, qs, k, idx);
    } else {
      var front := idx[..k - 1];
      assert forall j :: 0 <= j < k - 1 ==> front[j] < last;
      assert forall j :: 0 <= j < k - 1 ==> qs[..k - 1][j] == qs[..k][j];
      assert Embeds(qs[..k - 1], init, front);
      GreedyOptimal(init, qs, k - 1, front);
      assert w[|w| - 1] == qs[..k][k - 1];
    }
  }

  /** The counter reaches the query's length exactly when the query is a subsequence of what was scanned. */
  lemma GreedyCompleteIff(w: seq<char>, qs: seq<char>)
    ensures Greedy(w, qs) == |qs| <==> IsSubsequence(qs, w)
  {
    if Greedy(w, qs) == |qs| {
      var idx := GreedyWitness(w, qs);
      assert qs[..|qs|] == qs;
    }
    if IsSubsequence(qs, w) {
      var idx :| Embeds(qs, w, idx);
      assert qs[..|qs|] == qs;
      GreedyOptimal(w, qs, |qs|, idx);
    }
  }

  /** Scanning further never lowers the counter. */
  lemma {:induction false} GreedyMonotone(w: seq<char>, qs: seq<char>, k: nat)
    requires k <= |w|
    ensures Greedy(w[..k], qs) <= Greedy(w, qs)
    decreases |w|
  {
    if k < |w| {
      var init := w[..|w| - 1];
      assert w[..k] == init[..k];
      GreedyMonotone(init, qs, k);
    } else {
      assert w[..k] == w;
    }
  }

  /** One step of the scan: the counter on `w[..k + 1]` from the counter on `w[..k]` and byte `w[k]`. */
  lemma GreedyStep(w: seq<char>, qs: seq<char>, k: nat)
    requires k < |w|
    ensures Greedy(w[..k + 1], qs) ==
      (if Greedy(w[..k], qs) < |qs| && w[k] == qs[Greedy(w[..k], qs)] then Greedy(w[..k], qs) + 1
       else Greedy(w[..k], qs))
  {
    assert w[..k + 1][..k] == w[..k];
  }

  /** A stretch of bytes none of which is the next query byte leaves the counter where it is. */
  lemma {:induction false} GreedyStays(w: seq<char>, qs: seq<char>, k: nat, m: nat)
    requires k <= m <= |w| && Greedy(w[..k], qs) < |qs|
    requires forall j :: k <= j < m ==> w[j] != qs[Greedy(w[..k], qs)]
    ensures Greedy(w[..m], qs) == Greedy(w[..k], qs)
    decreases m - k
  {
    if k < m {
      GreedyStep(w, qs, k);
      GreedyStays(w, qs, k + 1, m);
    }
  }

  /** The smallest prefix length, from `from` on, after which the counter has matched all of `qs`. */
  function CompletionFrom(w: seq<char>, qs: seq<char>, from: nat): (r: Option<nat>)
    ensures r.Some? ==> from <= r.value <= |w| && Greedy(w[..r.value], qs) == |qs|
    ensures forall j :: from <= j <= |w| && (r.None? || j < r.value) ==> Greedy(w[..j], qs) != |qs|
    decreases |w| - from
  {
    if from > |w| then None
    else if Greedy(w[..from], qs) == |qs| then Some(from)
    else CompletionFrom(w, qs, from + 1)
  }

  /**
   * The view `__evstring_findFirst_impl(text, query)` returns: on a match, the `qlen` bytes
   * ending at the byte that completed the query; otherwise length 0 and offset `~0`.
   */
  function FindFirstSpec(t: seq<char>, tv: View, q: seq<char>, qv: View): (r: View)
    requires tv.offset + tv.len <= |t| && qv.offset + qv.len <= |q| && qv.len > 0
    ensures r.len == 0 || r.len == qv.len
    ensures r.len == 0 ==> r.offset == NOT_FOUND
    ensures r.len != 0 ==> tv.offset <= r.offset && r.offset + r.len <= tv.offset + tv.len
  {
    var w := Window(t, tv);
    var qs := Window(q, qv);
    match CompletionFrom(w, qs, 0)
    case None => View(NOT_FOUND, 0)
    case Some(k) => View(tv.offset + k - |qs|, |qs|)
  }

  /**
   * `__evstring_findFirst_impl` finds a match exactly when the query is a subsequence of the
   * window; the reported view ends at the shortest prefix of the window containing the query
   * as a subsequence, and is the `qlen` bytes before that point.
   */
  lemma FindFirstSpecCorrect(t: seq<char>, tv: View, q: seq<char>, qv: View)
    requires tv.offset + tv.len <= |t| && qv.offset + qv.len <= |q| && qv.len > 0
    ensures FindFirstSpec(t, tv, q, qv).len != 0 <==> IsSubsequence(Window(q, qv), Window(t, tv))
    ensures FindFirstSpec(t, tv, q, qv).len != 0 ==>
      var e := FindFirstSpec(t, tv, q, qv).offset + qv.len;
      && IsSubsequence(Window(q, qv), t[tv.offset .. e])
      && forall e' :: tv.offset <= e' < e ==> !IsSubsequence(Window(q, qv), t[tv.offset .. e'])
  {
    var w := Window(t, tv);
    var qs := Window(q, qv);
    var c := CompletionFrom(w, qs, 0);
    assert w[..|w|] == w;
    GreedyCompleteIff(w, qs);
    if c.Some? {
      var k := c.value;
      GreedyMonotone(w, qs, k);
      assert t[tv.offset .. tv.offset + k] == w[..k];
      GreedyCompleteIff(w[..k], qs);
      forall e' | tv.offset <= e' < tv.offset + k
        ensures !IsSubsequence(qs, t[tv.offset .. e'])
      {
        assert t[tv.offset .. e'] == w[..e' - tv.offset];
        GreedyCompleteIff(w[..e' - tv.offset], qs);
      }
    }
  }

  /** The first completion is at `k` when the counter is complete at `k` and not yet at `k - 1`. */
  lemma CompletionAt(w: seq<char>, qs: seq<char>, k: nat)
    requires 0 < k <= |w| && Greedy(w[..k], qs) == |qs| && Greedy(w[..k - 1], qs) < |qs|
    ensures CompletionFrom(w, qs, 0) == Some(k)
  {
    var c := CompletionFrom(w, qs, 0);
    if c.None? || c.value != k {
      assert c.Some? && c.value < k;
      assert w[..k - 1][..c.value] == w[..c.value];
      GreedyMonotone(w[..k - 1], qs, c.value);
    }
  }

  /** No completion at all when the counter is short of the query after the whole window. */
  lemma CompletionNone(w: seq<char>, qs: seq<char>)
    requires Greedy(w, qs) < |qs|
    ensures CompletionFrom(w, qs, 0) == None
  {
    var c := CompletionFrom(w, qs, 0);
    if c.Some? {
      GreedyMonotone(w, qs, c.value);
    }
  }

  /**
   * `evstring_findFirst(text, query)`: `findFirst_impl` over `slice(text, 0, -1)` and
   * `slice(query, 0, -1)`; `None` where one of those slices fails its `assert`.
   */
  function FindFirst(t: seq<char>, q: seq<char>): (r: Option<View>)
    ensures r.None? <==> |t| == 0 || |q| == 0
    ensures r.Some? ==> r.value == FindFirstSpec(t, View(0, |t|), q, View(0, |q|))
  {
    SliceWhole(|t|);
    SliceWhole(|q|);
    match (Slice(|t|, 0, -1), Slice(|q|, 0, -1))
    case (Some(tv), Some(qv)) => Some(FindFirstSpec(t, tv, q, qv))
    case _ => None
  }

  /** Over whole strings, `findFirst` reports a match exactly when the query is a subsequence of the text. */
  lemma FindFirstFound(t: seq<char>, q: seq<char>)
    requires |t| > 0 && |q| > 0
    ensures FindFirst(t, q).value.len != 0 <==> IsSubsequence(q, t)
    ensures FindFirst(t, q).value.len == 0 ==> FindFirst(t, q).value == View(NOT_FOUND, 0)
  {
    FindFirstSpecCorrect(t, View(0, |t|), q, View(0, |q|));
    assert Window(t, View(0, |t|)) == t;
    assert Window(q, View(0, |q|)) == q;
  }

  /** The counter of `__evstring_findFirst_impl` after `k` bytes of the text window. */
  ghost function Counter(t: seq<char>, tv: View, q: seq<char>, qv: View, k: nat): nat
    requires tv.offset + tv.len <= |t| && qv.offset + qv.len <= |q| && k <= tv.len
  {
    Greedy(Window(t, tv)[..k], Window(q, qv))
  }

  /** One byte of the window moves the counter on when it is the next byte of the query. */
  lemma CounterStep(t: seq<char>, tv: View, q: seq<char>, qv: View, k: nat)
    requires tv.offset + tv.len <= |t| && qv.offset + qv.len <= |q| && k < tv.len
    requires Counter(t, tv, q, qv, k) < qv.len
    ensures Counter(t, tv, q, qv, k + 1) ==
      if t[tv.offset + k] == q[qv.offset + Counter(t, tv, q, qv, k)] then Counter(t, tv, q, qv, k) + 1
      else Counter(t, tv, q, qv, k)
  {
    GreedyStep(Window(t, tv), Window(q, qv), k);
  }

  /** The counter reaching the query's length after `k` bytes is the first completion. */
  lemma CounterCompletes(t: seq<char>, tv: View, q: seq<char>, qv: View, k: nat)
    requires tv.offset + tv.len <= |t| && qv.offset + qv.len <= |q| && qv.len > 0 && 0 < k <= tv.len
    requires Counter(t, tv, q, qv, k - 1) < qv.len && Counter(t, tv, q, qv, k) == qv.len
    ensures FindFirstSpec(t, tv, q, qv) == View(tv.offset + k - qv.len, qv.len)
  {
    CompletionAt(Window(t, tv), Window(q, qv), k);
  }

  /** The counter short of the query's length after the whole window means no match. */
  lemma CounterFallsShort(t: seq<char>, tv: View, q: seq<char>, qv: View)
    requires tv.offset + tv.len <= |t| && qv.offset + qv.len <= |q| && qv.len > 0
    requires Counter(t, tv, q, qv, tv.len) < qv.len
    ensures FindFirstSpec(t, tv, q, qv) == View(NOT_FOUND, 0)
  {
    var w := Window(t, tv);
    assert w[..tv.len] == w;
    CompletionNone(w, Window(q, qv));
  }

  /** `__evstring_findFirst_impl` itself: the counter loop over the text window. */
  method FindFirstImpl(t: seq<char>, tv: View, q: seq<char>, qv: View) returns (r: View)
    requires tv.offset + tv.len <= |t| && qv.offset + qv.len <= |q| && qv.len > 0
    ensures r == FindFirstSpec(t, tv, q, qv)
  {
    assert Window(t, tv)[..0] == [];
    assert Counter(t, tv, q, qv, 0) == 0;
    hide Counter, FindFirstSpec;
    var progress: nat := 0;
    var i := tv.offset;
    while i < tv.offset + tv.len
      invariant tv.offset <= i <= tv.offset + tv.len
      invariant progress == Counter(t, tv, q, qv, i - tv.offset) && progress < qv.len
      decreases tv.offset + tv.len - i
    {
      CounterStep(t, tv, q, qv, i - tv.offset);
      if t[i] == q[qv.offset + progress] {
        progress := progress + 1;
      }
      if progress == qv.len {
        CounterCompletes(t, tv, q, qv, i - tv.offset + 1);
        return View((i + 1) - qv.len, qv.len);
      }
      i := i + 1;
    }
    CounterFallsShort(t, tv, q, qv);
    return View(NOT_FOUND, 0);
  }

  // ----- findAll -----

  /** The views a `findAll` loop records, and whether it ends in a failing slice `assert`. */
  datatype Scan = Scan(views: seq<View>, failed: bool)

  /**
   * The `findAll` loop from window start `b`: search `[b, |t|)`; record a match; continue
   * after it with `slice(text, end, -1)`, whose `assert` fails when the match ended at the
   * last byte.
   */
  function MatchesFrom(t: seq<char>, q: seq<char>, b: nat): Scan
    requires b < |t| && 0 < |q|
    decreases |t| - b
  {
    var v := FindFirstSpec(t, View(b, |t| - b), q, View(0, |q|));
    if v.len == 0 then Scan([], false)
    else if v.offset + v.len >= |t| then Scan([v], true)
    else
      var rest := MatchesFrom(t, q, v.offset + v.len);
      Scan([v] + rest.views, rest.failed)
  }

  /**
   * The state of a `findAll` loop that has recorded `done` and will next search from `b`:
   * `all`, the whole scan, is `done` followed by the scan from `b`.
   */
  ghost predicate ScanProgress(t: seq<char>, q: seq<char>, all: Scan, done: seq<View>, b: nat) {
    && b < |t| && 0 < |q|
    && all.views == done + MatchesFrom(t, q, b).views
    && all.failed == MatchesFrom(t, q, b).failed
  }

  /** The scan starts with nothing recorded. */
  lemma ScanStart(t: seq<char>, q: seq<char>)
    requires 0 < |q| <= |t|
    ensures ScanProgress(t, q, FindAllSpec(t, q), [], 0)
  {
  }

  /**
   * One round: the loop records the view `v` found from `b`, then either fails the `assert` of
   * `slice(text, end, -1)` (when `v` ends at the last byte) or searches again from the end of `v`.
   */
  lemma ScanRound(t: seq<char>, q: seq<char>, all: Scan, done: seq<View>, b: nat)
    requires ScanProgress(t, q, all, done, b)
    requires FindFirstSpec(t, View(b, |t| - b), q, View(0, |q|)).len != 0
    ensures var v := FindFirstSpec(t, View(b, |t| - b), q, View(0, |q|));
      && b < v.offset + v.len
      && (v.offset + v.len >= |t| ==> all.views == done + [v] && all.failed)
      && (v.offset + v.len < |t| ==> ScanProgress(t, q, all, done + [v], v.offset + v.len))
  {
    hide CompletionFrom, Greedy, Window;
    var v := FindFirstSpec(t, View(b, |t| - b), q, View(0, |q|));
    if v.offset + v.len < |t| {
      assert done + [v] + MatchesFrom(t, q, v.offset + v.len).views == done + ([v] + MatchesFrom(t, q, v.offset + v.len).views);
    }
  }

  /** A search from `b` that finds something leaves at least one more view to record. */
  lemma ScanMore(t: seq<char>, q: seq<char>, all: Scan, done: seq<View>, b: nat)
    requires ScanProgress(t, q, all, done, b)
    requires FindFirstSpec(t, View(b, |t| - b), q, View(0, |q|)).len != 0
    ensures |done| < |all.views|
  {
  }

  /** The scan ends when a search from `b` finds nothing: everything is recorded and no `assert` failed. */
  lemma ScanEnd(t: seq<char>, q: seq<char>, all: Scan, done: seq<View>, b: nat)
    requires ScanProgress(t, q, all, done, b)
    requires FindFirstSpec(t, View(b, |t| - b), q, View(0, |q|)).len == 0
    ensures all == Scan(done, false)
  {
    assert done + [] == done;
  }

  /** `evstring_findAll`'s matches: none when the text or query is empty or the query is longer. */
  function FindAllSpec(t: seq<char>, q: seq<char>): Scan {
    if |t| == 0 || |q| == 0 || |q| > |t| then Scan([], false) else MatchesFrom(t, q, 0)
  }

  /** Every view has length `n`, starts at or after `lo`, and ends inside a text of length `len`. */
  ghost predicate ViewsWithin(vs: seq<View>, lo: nat, len: nat, n: nat) {
    forall k :: 0 <= k < |vs| ==> lo <= vs[k].offset && vs[k].len == n && vs[k].offset + vs[k].len <= len
  }

  /** Each view ends at or before the next one starts. */
  ghost predicate Disjoint(vs: seq<View>) {
    forall k :: 0 < k < |vs| ==> vs[k - 1].offset + vs[k - 1].len <= vs[k].offset
  }

  /** The recorded views lie in the text from `b` on, have the query's length, and come in order without overlap. */
  lemma {:induction false} MatchesFromOrdered(t: seq<char>, q: seq<char>, b: nat)
    requires b < |t| && 0 < |q|
    ensures ViewsWithin(MatchesFrom(t, q, b).views, b, |t|, |q|)
    ensures Disjoint(MatchesFrom(t, q, b).views)
    decreases |t| - b
  {
    var v := FindFirstSpec(t, View(b, |t| - b), q, View(0, |q|));
    if v.len != 0 && v.offset + v.len < |t| {
      var e := v.offset + v.len;
      var rest := MatchesFrom(t, q, e).views;
      MatchesFromOrdered(t, q, e);
      var vs := [v] + rest;
      assert MatchesFrom(t, q, b).views == vs;
      assert forall k :: 0 < k < |vs| ==> vs[k] == rest[k - 1];
      assert rest != [] ==> e <= rest[0].offset;
    }
  }

  /** `findAll` results: query-length views of the text, at increasing, non-overlapping offsets. */
  lemma FindAllOrdered(t: seq<char>, q: seq<char>)
    ensures ViewsWithin(FindAllSpec(t, q).views, 0, |t|, |q|)
    ensures Disjoint(FindAllSpec(t, q).views)
  {
    if !(|t| == 0 || |q| == 0 || |q| > |t|) {
      MatchesFromOrdered(t, q, 0);
    }
  }

  /** Nothing is found, and no `assert` is reached, for an empty text, an empty query or a longer query. */
  lemma FindAllTrivial(t: seq<char>, q: seq<char>)
    requires |t| == 0 || |q| == 0 || |q| > |t|
    ensures FindAllSpec(t, q) == Scan([], false)
  {
  }

  /** Once the counter is at 0 before a contiguous copy of the query, it rises by one per byte of it. */
  lemma {:induction false} GreedyRun(w: seq<char>, qs: seq<char>, s: nat, m: nat)
    requires s + |qs| <= |w| && m <= |qs| && Greedy(w[..s], qs) == 0
    requires w[s .. s + |qs|] == qs
    ensures Greedy(w[..s + m], qs) == m
    decreases m
  {
    if m > 0 {
      var k := s + m - 1;
      GreedyRun(w, qs, s, m - 1);
      assert w[k] == qs[m - 1] by {
        assert w[k] == w[s .. s + |qs|][m - 1];
      }
      hide Greedy;
      GreedyStep(w, qs, k);
    }
  }

  /** A stretch without the query's first byte at the start of a window leaves the counter at 0. */
  lemma GapKeepsZero(w: seq<char>, qs: seq<char>, gap: seq<char>, rest: seq<char>)
    requires 0 < |qs| && w == gap + rest && qs[0] !in gap
    ensures Greedy(w[..|gap|], qs) == 0
  {
    assert w[..0] == [];
    forall j | 0 <= j < |gap|
      ensures w[j] != qs[Greedy(w[..0], qs)]
    {
      assert w[j] == gap[j];
    }
    GreedyStays(w, qs, 0, |gap|);
  }

  /** A window that is a stretch without the query's first byte, then the query: the counter completes right after the query. */
  lemma GapThenQuery(w: seq<char>, qs: seq<char>, gap: seq<char>, post: seq<char>)
    requires 0 < |qs| && w == gap + (qs + post) && qs[0] !in gap
    ensures CompletionFrom(w, qs, 0) == Some(|gap| + |qs|)
  {
    var s := |gap|;
    GapKeepsZero(w, qs, gap, qs + post);
    assert w[s .. s + |qs|] == qs;
    hide CompletionFrom;
    GreedyRun(w, qs, s, |qs|);
    GreedyRun(w, qs, s, |qs| - 1);
    CompletionAt(w, qs, s + |qs|);
  }

  /**
   * A window from `b` that holds a stretch without the query's first byte and then the
   * query: the search reports the query right after the stretch.
   */
  lemma FirstMatchAfterGap(t: seq<char>, q: seq<char>, b: nat, gap: seq<char>, post: seq<char>)
    requires 0 < |q| && b <= |t|
    requires t[b..] == gap + (q + post)
    requires q[0] !in gap
    ensures FindFirstSpec(t, View(b, |t| - b), q, View(0, |q|)) == View(b + |gap|, |q|)
  {
    var w := Window(t, View(b, |t| - b));
    var qs := Window(q, View(0, |q|));
    assert qs == q;
    assert w == gap + (q + post);
    GapThenQuery(w, qs, gap, post);
  }

  /** `t` from index `b` on is `s`. */
  ghost predicate SuffixIs(t: seq<char>, b: nat, s: seq<char>) {
    b <= |t| && t[b..] == s
  }

  /** Dropping a stretch and a query from a known suffix of `t` leaves the rest. */
  lemma DropPrefix(t: seq<char>, b: nat, gap: seq<char>, q: seq<char>, rest: seq<char>)
    requires SuffixIs(t, b, gap + (q + rest))
    ensures SuffixIs(t, b + |gap| + |q|, rest)
  {
    assert t[b + |gap| + |q|..] == t[b..][|gap|..][|q|..];
  }

  /** One round of the `findAll` loop over a window that holds a stretch without the query's first byte, the query, and more text. */
  lemma MatchesFromStep(t: seq<char>, q: seq<char>, b: nat, gap: seq<char>, post: seq<char>)
    requires 0 < |q| && 0 < |post| && q[0] !in gap
    requires SuffixIs(t, b, gap + (q + post))
    ensures b + |gap| + |q| < |t| && SuffixIs(t, b + |gap| + |q|, post)
    ensures MatchesFrom(t, q, b).views == [View(b + |gap|, |q|)] + MatchesFrom(t, q, b + |gap| + |q|).views
    ensures MatchesFrom(t, q, b).failed == MatchesFrom(t, q, b + |gap| + |q|).failed
  {
    assert |t[b..]| == |gap| + |q| + |post|;
    DropPrefix(t, b, gap, q, post);
    FirstMatchAfterGap(t, q, b, gap, post);
  }

  /** The last round of the `findAll` loop: a non-empty window that does not complete the query ends the scan. */
  lemma MatchesFromEnd(t: seq<char>, q: seq<char>, b: nat, tail: seq<char>)
    requires 0 < |q| && 0 < |tail| && Greedy(tail, q) < |q|
    requires SuffixIs(t, b, tail)
    ensures b < |t|
    ensures MatchesFrom(t, q, b) == Scan([], false)
  {
    var w := Window(t, View(b, |t| - b));
    assert w == t[b..] && w[..|w|] == w;
    assert Window(q, View(0, |q|)) == q;
    CompletionNone(w, q);
  }

  /** A round of the scan over a known suffix: stretch, query, more text. The view is recorded and the scan goes on after it. */
  lemma GapRound(t: seq<char>, q: seq<char>, all: Scan, done: seq<View>, b: nat, gap: seq<char>, post: seq<char>,
                 v: View, b': nat)
    requires ScanProgress(t, q, all, done, b)
    requires 0 < |post| && SkipsStart(gap, q) && SuffixIs(t, b, gap + (q + post))
    requires v == View(b + |gap|, |q|) && b' == b + |gap| + |q|
    ensures ScanProgress(t, q, all, done + [v], b')
    ensures SuffixIs(t, b', post)
  {
    MatchesFromStep(t, q, b, gap, post);
    var rest := MatchesFrom(t, q, b + |gap| + |q|).views;
    assert done + ([View(b + |gap|, |q|)] + rest) == (done + [View(b + |gap|, |q|)]) + rest;
  }

  /** The last round of the scan over a known suffix that does not complete the query. */
  lemma EndRound(t: seq<char>, q: seq<char>, all: Scan, done: seq<View>, b: nat, tail: seq<char>)
    requires ScanProgress(t, q, all, done, b)
    requires 0 < |tail| && Greedy(tail, q) < |q| && SuffixIs(t, b, tail)
    ensures all == Scan(done, false)
  {
    MatchesFromEnd(t, q, b, tail);
    assert done + [] == done;
  }

  /** `gap` holds no copy of the first byte of the non-empty query `q`. */
  ghost predicate SkipsStart(gap: seq<char>, q: seq<char>) {
    0 < |q| && q[0] !in gap
  }

  /** A text made of rounds: each gap of `gaps` followed by the query, and then `tail`. */
  function Rounds(q: seq<char>, gaps: seq<seq<char>>, tail: seq<char>): (r: seq<char>)
    ensures |tail| <= |r|
    decreases |gaps|
  {
    if gaps == [] then tail else gaps[0] + (q + Rounds(q, gaps[1..], tail))
  }

  /** The views of the copies of the query in `Rounds(q, gaps, tail)` read from `b`, for a query of length `n`. */
  function RoundViews(b: nat, n: nat, gaps: seq<seq<char>>): (r: seq<View>)
    ensures |r| == |gaps|
    ensures forall i :: 0 <= i < |r| ==> r[i].len == n
    decreases |gaps|
  {
    if gaps == [] then [] else [View(b + |gaps[0]|, n)] + RoundViews(b + |gaps[0]| + n, n, gaps[1..])
  }

  /**
   * The scan over a suffix made of rounds, each a gap without the query's first byte and then
   * the query, followed by a non-empty tail that completes nothing: every round's copy of the
   * query is recorded, and the scan stops without reaching a failing `assert`.
   */
  lemma {:induction false} ScanRounds(t: seq<char>, q: seq<char>, all: Scan, done: seq<View>, b: nat,
                                      gaps: seq<seq<char>>, tail: seq<char>)
    requires ScanProgress(t, q, all, done, b)
    requires 0 < |tail| && Greedy(tail, q) < |q|
    requires forall i :: 0 <= i < |gaps| ==> SkipsStart(gaps[i], q)
    requires SuffixIs(t, b, Rounds(q, gaps, tail))
    ensures all == Scan(done + RoundViews(b, |q|, gaps), false)
    decreases |gaps|
  {
    if gaps == [] {
      EndRound(t, q, all, done, b, tail);
      assert done + RoundViews(b, |q|, gaps) == done;
    } else {
      var g, b' := gaps[0], b + |gaps[0]| + |q|;
      var v := View(b + |g|, |q|);
      GapRound(t, q, all, done, b, g, Rounds(q, gaps[1..], tail), v, b');
      ScanRounds(t, q, all, done + [v], b', gaps[1..], tail);
      assert done + [v] + RoundViews(b', |q|, gaps[1..]) == done + RoundViews(b, |q|, gaps);
    }
  }

  /** Three rounds whose first gap is empty, written out. */
  lemma ThreeRoundsText(q: seq<char>, g1: seq<char>, g2: seq<char>, tail: seq<char>)
    ensures Rounds(q, [[], g1, g2], tail) == q + (g1 + (q + (g2 + (q + tail))))
  {
    var gs: seq<seq<char>> := [[], g1, g2];
    assert gs[1..] == [g1, g2] && gs[1..][1..] == [g2] && gs[1..][1..][1..] == [];
    assert Rounds(q, [g2], tail) == g2 + (q + tail);
    assert Rounds(q, [g1, g2], tail) == g1 + (q + (g2 + (q + tail)));
    assert [] + (q + (g1 + (q + (g2 + (q + tail))))) == q + (g1 + (q + (g2 + (q + tail))));
  }

  /** Three gaps of which the first is empty and the others lack the query's first byte. */
  lemma ThreeGapsSkip(q: seq<char>, g1: seq<char>, g2: seq<char>)
    requires 0 < |q| && q[0] !in g1 && q[0] !in g2
    ensures forall i :: 0 <= i < |[[], g1, g2]| ==> SkipsStart([[], g1, g2][i], q)
  {
    var gs: seq<seq<char>> := [[], g1, g2];
    assert SkipsStart(gs[0], q) && SkipsStart(gs[1], q) && SkipsStart(gs[2], q);
  }

  /** The views of three rounds whose first gap is empty, written out. */
  lemma ThreeRoundsViews(n: nat, g1: seq<char>, g2: seq<char>)
    ensures Scan(RoundViews(0, n, [[], g1, g2]), false) == Scan([View(0, n), View(n + |g1|, n), View(2 * n + |g1| + |g2|, n)], false)
  {
    var gs: seq<seq<char>> := [[], g1, g2];
    assert gs[1..] == [g1, g2] && gs[1..][1..] == [g2] && gs[1..][1..][1..] == [];
    assert RoundViews(n + |g1| + n, n, [g2]) == [View(2 * n + |g1| + |g2|, n)];
    assert RoundViews(n, n, [g1, g2]) == [View(n + |g1|, n), View(2 * n + |g1| + |g2|, n)];
    assert RoundViews(0, n, gs) == [View(0, n), View(n + |g1|, n), View(2 * n + |g1| + |g2|, n)];
  }

  /** A whole text made of rounds and a tail that completes nothing: `findAll` records the copy of every round. */
  lemma FindAllRounds(t: seq<char>, q: seq<char>, gaps: seq<seq<char>>, tail: seq<char>)
    requires 0 < |q| <= |t| && 0 < |tail| && Greedy(tail, q) < |q|
    requires forall i :: 0 <= i < |gaps| ==> SkipsStart(gaps[i], q)
    requires t == Rounds(q, gaps, tail)
    ensures FindAllSpec(t, q) == Scan(RoundViews(0, |q|, gaps), false)
  {
    assert SuffixIs(t, 0, Rounds(q, gaps, tail)) by {
      assert t[0..] == t;
    }
    ScanStart(t, q);
    ScanRounds(t, q, FindAllSpec(t, q), [], 0, gaps, tail);
    assert [] + RoundViews(0, |q|, gaps) == RoundViews(0, |q|, gaps);
  }

  /**
   * A text made of three copies of the query separated by stretches without the query's first
   * byte, and ending in a non-empty tail that does not complete the query: `findAll` records the
   * three copies, whose views `ThreeRoundsViews` writes out, and stops without reaching a failing `assert`.
   */
  lemma ThreeMatches(t: seq<char>, q: seq<char>, g1: seq<char>, g2: seq<char>, tail: seq<char>)
    requires 0 < |q| && 0 < |tail| && Greedy(tail, q) < |q|
    requires q[0] !in g1 && q[0] !in g2
    requires t == q + (g1 + (q + (g2 + (q + tail))))
    ensures FindAllSpec(t, q) == Scan(RoundViews(0, |q|, [[], g1, g2]), false)
  {
    assert |q| <= |t|;
    hide *;
    ThreeRoundsText(q, g1, g2, tail);
    ThreeGapsSkip(q, g1, g2);
    FindAllRounds(t, q, [[], g1, g2], tail);
  }

  /** The pieces of the repository's string-test text around its three occurrences of "Hello". */
  const SEARCH_GAP1: seq<char> := ", this is me saying `"
  const SEARCH_GAP2: seq<char> := "` like someone who says '"
  const SEARCH_TAIL: seq<char> := "'"

  /** The analysed text of the repository's string test: "Hello, this is me saying `Hello` like someone who says 'Hello'". */
  const SEARCH_TEXT: seq<char> := "Hello" + (SEARCH_GAP1 + ("Hello" + (SEARCH_GAP2 + ("Hello" + SEARCH_TAIL))))

  /** The repository's test vector: three matches of "Hello", at offsets 0, 26 and 56, each of length 5. */
  lemma SearchTextVector()
    ensures |SEARCH_TEXT| == 62
    ensures FindAllSpec(SEARCH_TEXT, "Hello") == Scan([View(0, 5), View(26, 5), View(56, 5)], false)
  {
    assert SEARCH_TAIL[..0] == [] && SEARCH_TAIL[..1] == SEARCH_TAIL;
    assert 'H' !in SEARCH_GAP1 && 'H' !in SEARCH_GAP2;
    ThreeMatches(SEARCH_TEXT, "Hello", SEARCH_GAP1, SEARCH_GAP2, SEARCH_TAIL);
    ThreeRoundsViews(5, SEARCH_GAP1, SEARCH_GAP2);
  }

  // ----- replaceFirst -----

  /** What `evstring_replaceFirst` yields: a new string's bytes, or a failing slice `assert`. */
  datatype Replaced = Replaced(bytes: seq<char>) | ReplaceAssertFails

  /**
   * `evstring_replaceFirst`: a copy of the text when nothing is found; otherwise the bytes
   * before the reported view, the replacement, and the bytes after the view, the last taken
   * with `slice(text, end, -1)`.
   */
  function ReplaceFirstSpec(t: seq<char>, q: seq<char>, rep: seq<char>): Replaced {
    match FindFirst(t, q)
    case None => ReplaceAssertFails
    case Some(v) =>
      if v.len == 0 then Replaced(t)
      else if v.offset + v.len >= |t| then ReplaceAssertFails
      else Replaced(t[..v.offset] + rep + t[v.offset + v.len..])
  }

  /**
   * `replaceFirst` copies the text when the query is not a subsequence of it, and otherwise
   * puts the replacement in place of the `|q|` bytes before the byte that completes the query.
   * It fails an `assert` on an empty text or query and when that byte is the text's last.
   */
  lemma ReplaceFirstShape(t: seq<char>, q: seq<char>, rep: seq<char>)
    ensures ReplaceFirstSpec(t, q, rep).ReplaceAssertFails? <==>
      |t| == 0 || |q| == 0 || (FindFirst(t, q).value.len != 0 && FindFirst(t, q).value.offset + |q| == |t|)
    ensures |t| > 0 && |q| > 0 && !IsSubsequence(q, t) ==> ReplaceFirstSpec(t, q, rep) == Replaced(t)
    ensures ReplaceFirstSpec(t, q, rep).Replaced? && IsSubsequence(q, t) ==>
      var off := FindFirst(t, q).value.offset;
      var r := ReplaceFirstSpec(t, q, rep).bytes;
      && off + |q| < |t|
      && |r| == |t| - |q| + |rep|
      && r[..off] == t[..off]
      && r[off .. off + |rep|] == rep
      && r[off + |rep| ..] == t[off + |q| ..]
  {
    if |t| > 0 && |q| > 0 {
      FindFirstFound(t, q);
    }
  }

  // ----- findFirstChar / findLastChar -----

  /** The smallest index holding `c`, or -1. */
  function FirstIndexOf(s: seq<char>, c: char): (r: int)
    ensures -1 <= r < |s|
    ensures 0 <= r ==> s[r] == c
    ensures forall j :: 0 <= j < |s| && (r < 0 || j < r) ==> s[j] != c
    decreases |s|
  {
    if s == [] then -1
    else if s[0] == c then 0
    else
      var r := FirstIndexOf(s[1..], c);
      if r < 0 then -1 else r + 1
  }

  /** The largest index holding `c`, or -1. */
  function LastIndexOf(s: seq<char>, c: char): (r: int)
    ensures -1 <= r < |s|
    ensures 0 <= r ==> s[r] == c
    ensures forall j :: 0 <= j < |s| && r < j ==> s[j] != c
    decreases |s|
  {
    if s == [] then -1
    else if s[|s| - 1] == c then |s| - 1
    else LastIndexOf(s[..|s| - 1], c)
  }

  /** `evstring_findFirstChar`: an upward scan of the string's bytes. */
  method FindFirstChar(text: seq<char>, c: char) returns (r: int)
    ensures r == FirstIndexOf(text, c)
  {
    var i := 0;
    while i < |text|
      invariant 0 <= i <= |text|
      invariant forall j :: 0 <= j < i ==> text[j] != c
    {
      if text[i] == c {
        return i;
      }
      i := i + 1;
    }
    return -1;
  }

  /** `evstring_findLastChar`: a downward scan that stops at `c` or runs out at -1. */
  method FindLastChar(text: seq<char>, c: char) returns (r: int)
    ensures r == LastIndexOf(text, c)
  {
    var i := |text| - 1;
    while i >= 0
      invariant -1 <= i < |text|
      invariant forall j :: i < j < |text| ==> text[j] != c
    {
      if text[i] == c {
        break;
      }
      i := i - 1;
    }
    return i;
  }
}
