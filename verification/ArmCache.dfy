/** AArch64 cache maintenance by address range: the passes over the lines of a range,
    and what they do to a write-back data cache over memory, also while the cache
    evicts and fills lines of its own accord. Lines are named by their index. */
module ArmCache {
  import opened Words

  type Line = seq<nat>

  datatype State = State(cached: map<nat, Line>, ram: nat -> Line)

  /** `Clean`, `Invalidate` and `CleanInval` are the kernel's, each with the physical
      address it passes along; `Fill` and `Evict` are the cache's own. */
  datatype Op =
    | Clean(line: nat, paddr: int)
    | Invalidate(line: nat, paddr: int)
    | CleanInval(line: nat, paddr: int)
    | Fill(line: nat)
    | Evict(line: nat)

  function WrittenBack(st: State, l: nat): State {
    if l in st.cached then st.(ram := (k: nat) => if k == l then st.cached[l] else st.ram(k)) else st
  }

  function Dropped(st: State, l: nat): State {
    st.(cached := st.cached - {l})
  }

  function Apply(st: State, op: Op): State {
    match op
    case Clean(l, _) => WrittenBack(st, l)
    case Invalidate(l, _) => Dropped(st, l)
    case CleanInval(l, _) => Dropped(WrittenBack(st, l), l)
    case Fill(l) => if l in st.cached then st else st.(cached := st.cached[l := st.ram(l)])
    case Evict(l) => Dropped(WrittenBack(st, l), l)
  }

  function Run(st: State, ops: seq<Op>): State
    decreases |ops|
  {
    if ops == [] then st else Apply(Run(st, ops[..|ops| - 1]), ops[|ops| - 1])
  }

  /** What a load from line `l` sees. */
  function Seen(st: State, l: nat): Line {
    if l in st.cached then st.cached[l] else st.ram(l)
  }

  function ReadByte(size: nat, st: State, b: nat): nat
    requires size > 0
  {
    var line := Seen(st, LineIndex(size, b));
    if b % size < |line| then line[b % size] else 0
  }

  /** Cache and memory hold the same for line `l`. */
  predicate Consistent(st: State, l: nat) {
    l in st.cached ==> st.cached[l] == st.ram(l)
  }

  lemma ApplyKeeps(st: State, op: Op, l: nat)
    ensures !(op.Invalidate? && op.line == l && !Consistent(st, l)) ==> Seen(Apply(st, op), l) == Seen(st, l)
    ensures Consistent(st, l) || (op.Clean? && op.line == l) ==> Consistent(Apply(st, op), l)
  {
  }

  /** Every invalidation of line `l` comes after a clean of it. */
  ghost predicate CleanedFirst(ops: seq<Op>, l: nat) {
    forall i :: 0 <= i < |ops| && ops[i].Invalidate? && ops[i].line == l ==> CleanIn(ops[..i], l)
  }

  predicate CleanIn(ops: seq<Op>, l: nat) {
    exists j :: 0 <= j < |ops| && ops[j].Clean? && ops[j].line == l
  }

  /** A line that is cleaned before it is invalidated loses nothing, whatever the
      cache does in between. */
  lemma {:induction false} CleanedFirstKeeps(st: State, ops: seq<Op>, l: nat)
    requires CleanedFirst(ops, l)
    ensures Seen(Run(st, ops), l) == Seen(st, l)
    ensures CleanIn(ops, l) ==> Consistent(Run(st, ops), l)
    decreases |ops|
  {
    if ops != [] {
      var n := |ops| - 1;
      var us := ops[..n];
      forall i | 0 <= i < |us| && us[i].Invalidate? && us[i].line == l
        ensures CleanIn(us[..i], l)
      {
        assert us[..i] == ops[..i];
      }
      CleanedFirstKeeps(st, us, l);
      ApplyKeeps(Run(st, us), ops[n], l);
      if CleanIn(ops, l) && !(ops[n].Clean? && ops[n].line == l) {
        var j :| 0 <= j < |ops| && ops[j].Clean? && ops[j].line == l;
        assert us[j] == ops[j];
      }
    }
  }

  /** The kernel's own operations of a run. */
  function Kernel(ops: seq<Op>): seq<Op>
    decreases |ops|
  {
    if ops == [] then []
    else Kernel(ops[..|ops| - 1]) + (if ops[|ops| - 1].Fill? || ops[|ops| - 1].Evict? then [] else [ops[|ops| - 1]])
  }

  lemma {:induction false} KernelHolds(ops: seq<Op>, l: nat)
    ensures CleanIn(Kernel(ops), l) ==> CleanIn(ops, l)
    decreases |ops|
  {
    if ops != [] {
      var n := |ops| - 1;
      KernelHolds(ops[..n], l);
      if CleanIn(Kernel(ops), l) && !(ops[n].Clean? && ops[n].line == l) {
        var j :| 0 <= j < |Kernel(ops)| && Kernel(ops)[j].Clean? && Kernel(ops)[j].line == l;
        assert Kernel(ops[..n])[j] == Kernel(ops)[j];
        assert CleanIn(ops[..n], l);
        var i :| 0 <= i < n && ops[..n][i].Clean? && ops[..n][i].line == l;
        assert ops[i].Clean? && ops[i].line == l;
      } else if CleanIn(Kernel(ops), l) {
        assert ops[n].Clean? && ops[n].line == l;
      }
    }
  }

  /** The order of the kernel's operations is what counts. */
  lemma {:induction false} KernelOrder(ops: seq<Op>, l: nat)
    requires CleanedFirst(Kernel(ops), l)
    ensures CleanedFirst(ops, l)
    decreases |ops|
  {
    if ops != [] {
      var n := |ops| - 1;
      var us := ops[..n];
      forall i | 0 <= i < |Kernel(us)| && Kernel(us)[i].Invalidate? && Kernel(us)[i].line == l
        ensures CleanIn(Kernel(us)[..i], l)
      {
        assert Kernel(ops)[i] == Kernel(us)[i] && Kernel(ops)[..i] == Kernel(us)[..i];
      }
      KernelOrder(us, l);
      forall i | 0 <= i < |ops| && ops[i].Invalidate? && ops[i].line == l
        ensures CleanIn(ops[..i], l)
      {
        if i < n {
          assert us[i] == ops[i] && us[..i] == ops[..i];
        } else {
          assert Kernel(ops)[|Kernel(us)|] == ops[n] && Kernel(ops)[..|Kernel(us)|] == Kernel(us);
          KernelHolds(us, l);
        }
      }
    }
  }

  // ----- the passes

  datatype Kind = ByClean | ByInvalidate | ByCleanInval

  function Make(kind: Kind, l: nat, paddr: int): Op {
    match kind
    case ByClean => Clean(l, paddr)
    case ByInvalidate => Invalidate(l, paddr)
    case ByCleanInval => CleanInval(l, paddr)
  }

  /** One operation for each of the n lines from `lo` on, with the physical address
      that lies as far from `pstart` as the line does from `start`. */
  function Pass(kind: Kind, size: nat, start: nat, pstart: int, lo: nat, n: nat): seq<Op> {
    if n == 0 then []
    else Pass(kind, size, start, pstart, lo, n - 1) + [Make(kind, lo + (n - 1), pstart + (lo + (n - 1)) * size - start)]
  }

  /** Index of the line that holds byte `a`. */
  function LineIndex(size: nat, a: nat): (l: nat)
    requires size > 0
    ensures l * size <= a < l * size + size
  {
    DivFloor(a, size);
    a / size
  }

  function LineCount(size: nat, start: nat, end: nat): nat
    requires size > 0
  {
    if LineIndex(size, start) <= LineIndex(size, end) then LineIndex(size, end) - LineIndex(size, start) + 1 else 0
  }

  function RangePass(kind: Kind, size: nat, start: nat, end: nat, pstart: int): seq<Op>
    requires size > 0
  {
    Pass(kind, size, start, pstart, LineIndex(size, start), LineCount(size, start, end))
  }

  function LineStart(size: nat, a: nat): (r: nat)
    requires size > 0
    ensures r <= a
  {
    LineIndex(size, a) * size
  }

  lemma DivFloor(a: nat, size: nat)
    requires size > 0
    ensures a / size >= 0 && a / size * size <= a < a / size * size + size
  {
    var q := a / size;
    assert a == q * size + a % size by { assert a == size * q + a % size; }
  }

  function CleanInvalidateRange(size: nat, start: nat, end: nat, pstart: int): seq<Op>
    requires size > 0
  {
    RangePass(ByClean, size, start, end, pstart) + RangePass(ByCleanInval, size, start, end, pstart)
  }

  /** The cleans that come before the invalidation: the whole range if it starts inside
      a line, the last line if it ends inside one. */
  function EdgeCleans(size: nat, start: nat, end: nat, pstart: int): seq<Op>
    requires size > 0
  {
    var last := LineStart(size, end);
    (if start != LineStart(size, start) then RangePass(ByClean, size, start, end, pstart) else []) +
    (if end + 1 != LineStart(size, end + 1) then RangePass(ByClean, size, last, last, pstart + last - start) else [])
  }

  function InvalidateRange(size: nat, start: nat, end: nat, pstart: int): seq<Op>
    requires size > 0
  {
    EdgeCleans(size, start, end, pstart) + RangePass(ByInvalidate, size, start, end, pstart)
  }

  // ----- the loops

  class Cpu {
    const lineBits: nat
    /** The cache operations issued, oldest first. */
    ghost var ops: seq<Op>

    constructor (lineBits: nat)
      ensures this.lineBits == lineBits && ops == []
    {
      this.lineBits := lineBits;
      ops := [];
    }

    function Size(): (n: nat) ensures n > 0 { Pow2(lineBits) }

    method CleanByVa(va: nat, ghost paddr: int)
      modifies `ops
      ensures ops == old(ops) + [Clean(LineIndex(Size(), va), paddr)]
    {
      ops := ops + [Clean(LineIndex(Size(), va), paddr)];
    }

    method InvalidateByVa(va: nat, ghost paddr: int)
      modifies `ops
      ensures ops == old(ops) + [Invalidate(LineIndex(Size(), va), paddr)]
    {
      ops := ops + [Invalidate(LineIndex(Size(), va), paddr)];
    }

    method CleanInvalByVa(va: nat, ghost paddr: int)
      modifies `ops
      ensures ops == old(ops) + [CleanInval(LineIndex(Size(), va), paddr)]
    {
      ops := ops + [CleanInval(LineIndex(Size(), va), paddr)];
    }

    method CleanCacheRangePoc(start: nat, end: nat, pstart: int)
      modifies `ops
      ensures ops == old(ops) + RangePass(ByClean, Size(), start, end, pstart)
    {
      var lo := LineIndex(Size(), start);
      var n := LineCount(Size(), start, end);
      for i := 0 to n
        invariant ops == old(ops) + Pass(ByClean, Size(), start, pstart, lo, i)
      {
        var line := (lo + i) * Size();
        LineOfStart(lo + i, Size());
        CleanByVa(line, pstart + line - start);
      }
    }

    /** The level-two step does nothing on this platform. */
    method CleanCacheRangeRam(start: nat, end: nat, pstart: int)
      modifies `ops
      ensures ops == old(ops) + RangePass(ByClean, Size(), start, end, pstart)
    {
      CleanCacheRangePoc(start, end, pstart);
    }

    method CleanInvalidateCacheRangeRam(start: nat, end: nat, pstart: int)
      modifies `ops
      ensures ops == old(ops) + CleanInvalidateRange(Size(), start, end, pstart)
    {
      CleanCacheRangePoc(start, end, pstart);
      ghost var mid := ops;
      var lo := LineIndex(Size(), start);
      var n := LineCount(Size(), start, end);
      for i := 0 to n
        invariant ops == mid + Pass(ByCleanInval, Size(), start, pstart, lo, i)
      {
        var line := (lo + i) * Size();
        LineOfStart(lo + i, Size());
        CleanInvalByVa(line, pstart + line - start);
      }
    }

    /** The cleans of the lines the range covers only in part. */
    method CleanEdges(start: nat, end: nat, pstart: int)
      modifies `ops
      ensures ops == old(ops) + EdgeCleans(Size(), start, end, pstart)
    {
      if start != LineStart(Size(), start) {
        CleanCacheRangeRam(start, end, pstart);
      }
      if end + 1 != LineStart(Size(), end + 1) {
        var line := LineStart(Size(), end);
        CleanCacheRangeRam(line, line, pstart + line - start);
      }
    }

    method InvalidateCacheRangeRam(start: nat, end: nat, pstart: int)
      modifies `ops
      ensures ops == old(ops) + InvalidateRange(Size(), start, end, pstart)
    {
      CleanEdges(start, end, pstart);
      ghost var mid := ops;
      var lo := LineIndex(Size(), start);
      var n := LineCount(Size(), start, end);
      for i := 0 to n
        invariant ops == mid + Pass(ByInvalidate, Size(), start, pstart, lo, i)
      {
        var line := (lo + i) * Size();
        LineOfStart(lo + i, Size());
        InvalidateByVa(line, pstart + line - start);
      }
    }
  }

  lemma LineOfStart(l: nat, size: nat)
    requires size > 0
    ensures l * size >= 0 && LineIndex(size, l * size) == l
  {
    LineUnique(size, l * size, l);
  }

  /** The line index is the one whose bytes include `a`. */
  lemma LineUnique(size: nat, a: nat, l: nat)
    requires size > 0 && l * size <= a < l * size + size
    ensures LineIndex(size, a) == l
  {
    var k := LineIndex(size, a);
    MulDistributes(k, l, size);
    MulDistributes(l, k, size);
    if k > l {
      MulAtLeast(k - l, size);
    }
    if k < l {
      MulAtLeast(l - k, size);
    }
  }

  // ----- what the passes visit

  lemma {:induction false} PassAt(kind: Kind, size: nat, start: nat, pstart: int, lo: nat, n: nat, i: nat)
    requires i < n
    ensures |Pass(kind, size, start, pstart, lo, n)| == n
    ensures Pass(kind, size, start, pstart, lo, n)[i] == Make(kind, lo + i, pstart + ((lo + i) * size - start))
  {
    PassLength(kind, size, start, pstart, lo, n - 1);
    if i < n - 1 {
      PassAt(kind, size, start, pstart, lo, n - 1, i);
    }
  }

  lemma {:induction false} PassLength(kind: Kind, size: nat, start: nat, pstart: int, lo: nat, n: nat)
    ensures |Pass(kind, size, start, pstart, lo, n)| == n
  {
    if n > 0 {
      PassLength(kind, size, start, pstart, lo, n - 1);
    }
  }

  /** A range pass visits, once each and in order, exactly the lines with a byte in
      [start, end]. */
  lemma PassVisits(kind: Kind, size: nat, start: nat, end: nat, pstart: int, l: nat)
    requires size > 0 && start <= end
    ensures var ops := RangePass(kind, size, start, end, pstart);
            |ops| == LineCount(size, start, end) && LineCount(size, start, end) > 0 &&
            (forall i: nat :: i < |ops| ==>
               ops[i] == Make(kind, LineIndex(size, start) + i, pstart + ((LineIndex(size, start) + i) * size - start)))
    ensures (exists b: nat :: start <= b <= end && LineIndex(size, b) == l) <==>
            LineIndex(size, start) <= l <= LineIndex(size, end)
  {
    var lo, n := LineIndex(size, start), LineCount(size, start, end);
    Monotone(start, end, size);
    PassLength(kind, size, start, pstart, lo, n);
    forall i: nat | i < n
      ensures RangePass(kind, size, start, end, pstart)[i] == Make(kind, lo + i, pstart + ((lo + i) * size - start))
    {
      PassAt(kind, size, start, pstart, lo, n, i);
    }
    if b: nat :| start <= b <= end && LineIndex(size, b) == l {
      Monotone(start, b, size);
      Monotone(b, end, size);
    }
    if LineIndex(size, start) <= l <= LineIndex(size, end) {
      var b := FirstByte(size, start, end, l);
    }
  }

  lemma Monotone(a: nat, b: nat, size: nat)
    requires size > 0 && a <= b
    ensures LineIndex(size, a) <= LineIndex(size, b)
  {
    var k, l := LineIndex(size, a), LineIndex(size, b);
    if k > l {
      MulDistributes(k, l, size);
      MulAtLeast(k - l, size);
    }
  }

  lemma FirstByte(size: nat, start: nat, end: nat, l: nat) returns (b: nat)
    requires size > 0 && start <= end && LineIndex(size, start) <= l <= LineIndex(size, end)
    ensures start <= b <= end && LineIndex(size, b) == l
  {
    var lo, hi := LineIndex(size, start), LineIndex(size, end);
    if l == lo {
      b := start;
    } else {
      LineOfStart(l, size);
      b := l * size;
      MulDistributes(l, lo, size);
      MulAtLeast(l - lo, size);
      if l < hi {
        MulDistributes(hi, l, size);
        MulAtLeast(hi - l, size);
      }
    }
  }

  // ----- clean and invalidate

  lemma {:induction false} PassKinds(kind: Kind, size: nat, start: nat, pstart: int, lo: nat, n: nat)
    ensures forall op :: op in Pass(kind, size, start, pstart, lo, n) ==>
              !op.Fill? && !op.Evict? && op == Make(kind, op.line, op.paddr) && lo <= op.line < lo + n
    ensures forall l :: lo <= l < lo + n ==>
              exists i :: 0 <= i < |Pass(kind, size, start, pstart, lo, n)| &&
                          Pass(kind, size, start, pstart, lo, n)[i] == Make(kind, l, pstart + l * size - start)
  {
    if n > 0 {
      PassKinds(kind, size, start, pstart, lo, n - 1);
      var p, q := Pass(kind, size, start, pstart, lo, n), Pass(kind, size, start, pstart, lo, n - 1);
      assert p[|q|] == Make(kind, lo + (n - 1), pstart + (lo + (n - 1)) * size - start);
      forall l | lo <= l < lo + n - 1
        ensures exists i :: 0 <= i < |p| && p[i] == Make(kind, l, pstart + l * size - start)
      {
        var i :| 0 <= i < |q| && q[i] == Make(kind, l, pstart + l * size - start);
        assert p[i] == q[i];
      }
    }
  }

  /** Cleaning and invalidating a range preserves what every load sees, whatever the
      cache does meanwhile. */
  lemma CleanInvalidateKeeps(size: nat, start: nat, end: nat, pstart: int, st: State, ops: seq<Op>, b: nat)
    requires size > 0 && Kernel(ops) == CleanInvalidateRange(size, start, end, pstart)
    ensures ReadByte(size, Run(st, ops), b) == ReadByte(size, st, b)
  {
    var lo, n := LineIndex(size, start), LineCount(size, start, end);
    PassKinds(ByClean, size, start, pstart, lo, n);
    PassKinds(ByCleanInval, size, start, pstart, lo, n);
    var l := LineIndex(size, b);
    forall i | 0 <= i < |Kernel(ops)|
      ensures !Kernel(ops)[i].Invalidate?
    {
      assert Kernel(ops)[i] in CleanInvalidateRange(size, start, end, pstart);
    }
    KernelOrder(ops, l);
    CleanedFirstKeeps(st, ops, l);
  }

  predicate Drops(op: Op, l: nat) {
    (op.Invalidate? || op.CleanInval? || op.Evict?) && op.line == l
  }

  /** Without fills, exactly the lines some operation drops leave the cache. */
  lemma {:induction false} LeftInCache(st: State, ops: seq<Op>, l: nat)
    requires forall op :: op in ops ==> !op.Fill?
    ensures l in Run(st, ops).cached <==> l in st.cached && forall op :: op in ops ==> !Drops(op, l)
    decreases |ops|
  {
    if ops != [] {
      var us, t := ops[..|ops| - 1], ops[|ops| - 1];
      assert ops == us + [t];
      LeftInCache(st, us, l);
      assert forall op :: op in ops <==> op in us || op == t;
      assert t in ops && !t.Fill?;
    }
  }

  /** Left alone, the cache then holds none of the lines that meet the range, and all
      the others it held. */
  lemma CleanInvalidateUncaches(size: nat, start: nat, end: nat, pstart: int, st: State, l: nat)
    requires size > 0 && start <= end
    ensures l in Run(st, CleanInvalidateRange(size, start, end, pstart)).cached <==>
            l in st.cached && !(LineIndex(size, start) <= l <= LineIndex(size, end))
  {
    var lo, n := LineIndex(size, start), LineCount(size, start, end);
    var ops := CleanInvalidateRange(size, start, end, pstart);
    Monotone(start, end, size);
    PassKinds(ByClean, size, start, pstart, lo, n);
    PassKinds(ByCleanInval, size, start, pstart, lo, n);
    LeftInCache(st, ops, l);
    if lo <= l < lo + n {
      var p := RangePass(ByCleanInval, size, start, end, pstart);
      var i :| 0 <= i < |p| && p[i] == Make(ByCleanInval, l, pstart + l * size - start);
      assert p[i] in ops && Drops(p[i], l);
    }
  }

  // ----- invalidate

  /** The lines of the range cleaned before the invalidation. */
  predicate EdgeCleaned(size: nat, start: nat, end: nat, l: nat)
    requires size > 0
  {
    (start != LineStart(size, start) && LineIndex(size, start) <= l <= LineIndex(size, end)) ||
    (end + 1 != LineStart(size, end + 1) && l == LineIndex(size, end))
  }

  lemma EdgeCleansAre(size: nat, start: nat, end: nat, pstart: int, l: nat)
    requires size > 0 && start <= end
    ensures CleanIn(EdgeCleans(size, start, end, pstart), l) <==> EdgeCleaned(size, start, end, l)
    ensures forall op :: op in EdgeCleans(size, start, end, pstart) ==> op.Clean?
  {
    var last := LineStart(size, end);
    var whole: seq<Op> := if start != LineStart(size, start) then RangePass(ByClean, size, start, end, pstart) else [];
    var edge: seq<Op> :=
      if end + 1 != LineStart(size, end + 1) then RangePass(ByClean, size, last, last, pstart + last - start) else [];
    assert EdgeCleans(size, start, end, pstart) == whole + edge;
    OnlyCleans(size, start, pstart, LineIndex(size, start), LineCount(size, start, end));
    OnlyCleans(size, last, pstart + last - start, LineIndex(size, last), LineCount(size, last, last));
    BothClean(whole, edge);
    WholeIn(size, start, end, pstart, l, whole);
    EdgeIn(size, start, end, pstart, l, edge);
    CleanInEither(whole, edge, l);
  }

  lemma OnlyCleans(size: nat, start: nat, pstart: int, lo: nat, n: nat)
    ensures forall op :: op in Pass(ByClean, size, start, pstart, lo, n) ==> op.Clean?
  {
    PassKinds(ByClean, size, start, pstart, lo, n);
  }

  lemma BothClean(a: seq<Op>, b: seq<Op>)
    requires (forall op :: op in a ==> op.Clean?) && forall op :: op in b ==> op.Clean?
    ensures forall op :: op in a + b ==> op.Clean?
  {
  }

  lemma WholeIn(size: nat, start: nat, end: nat, pstart: int, l: nat, whole: seq<Op>)
    requires size > 0 && start <= end
    requires whole == if start != LineStart(size, start) then RangePass(ByClean, size, start, end, pstart) else []
    ensures CleanIn(whole, l) <==>
            start != LineStart(size, start) && LineIndex(size, start) <= l <= LineIndex(size, end)
  {
    Monotone(start, end, size);
    PassCleans(size, start, pstart, LineIndex(size, start), LineCount(size, start, end), l);
  }

  lemma EdgeIn(size: nat, start: nat, end: nat, pstart: int, l: nat, edge: seq<Op>)
    requires size > 0 && start <= end
    requires var last := LineStart(size, end);
             edge == if end + 1 != LineStart(size, end + 1)
                     then RangePass(ByClean, size, last, last, pstart + last - start) else []
    ensures CleanIn(edge, l) <==> end + 1 != LineStart(size, end + 1) && l == LineIndex(size, end)
  {
    var last := LineStart(size, end);
    LineOfStart(LineIndex(size, end), size);
    PassCleans(size, last, pstart + last - start, LineIndex(size, last), 1, l);
  }

  /** A cleaning pass cleans its own lines. */
  lemma PassCleans(size: nat, start: nat, pstart: int, lo: nat, n: nat, l: nat)
    ensures CleanIn(Pass(ByClean, size, start, pstart, lo, n), l) <==> lo <= l < lo + n
  {
    var ops := Pass(ByClean, size, start, pstart, lo, n);
    PassKinds(ByClean, size, start, pstart, lo, n);
    if lo <= l < lo + n {
      var i :| 0 <= i < |ops| && ops[i] == Make(ByClean, l, pstart + l * size - start);
      assert ops[i].Clean? && ops[i].line == l;
    }
    if CleanIn(ops, l) {
      var j :| 0 <= j < |ops| && ops[j].Clean? && ops[j].line == l;
      assert ops[j] in ops;
    }
  }

  lemma CleanInEither(a: seq<Op>, b: seq<Op>, l: nat)
    ensures CleanIn(a + b, l) <==> CleanIn(a, l) || CleanIn(b, l)
  {
    var ops: seq<Op> := a + b;
    if CleanIn(a, l) {
      var j :| 0 <= j < |a| && a[j].Clean? && a[j].line == l;
      assert ops[j] == a[j];
    }
    if CleanIn(b, l) {
      var j :| 0 <= j < |b| && b[j].Clean? && b[j].line == l;
      assert ops[|a| + j] == b[j];
    }
    if CleanIn(ops, l) {
      var j :| 0 <= j < |ops| && ops[j].Clean? && ops[j].line == l;
      assert ops[j] == if j < |a| then a[j] else b[j - |a|];
    }
  }

  lemma InvalidateOrder(size: nat, start: nat, end: nat, pstart: int, l: nat)
    requires size > 0 && start <= end
    requires EdgeCleaned(size, start, end, l) || !(LineIndex(size, start) <= l <= LineIndex(size, end))
    ensures CleanedFirst(InvalidateRange(size, start, end, pstart), l)
  {
    var a, b := EdgeCleans(size, start, end, pstart), RangePass(ByInvalidate, size, start, end, pstart);
    var ops: seq<Op> := a + b;
    Monotone(start, end, size);
    EdgeCleansAre(size, start, end, pstart, l);
    PassKinds(ByInvalidate, size, start, pstart, LineIndex(size, start), LineCount(size, start, end));
    forall k | 0 <= k < |a|
      ensures ops[k].Clean?
    {
      assert ops[k] == a[k] && a[k] in a;
    }
    forall i | 0 <= i < |ops| && ops[i].Invalidate? && ops[i].line == l
      ensures CleanIn(ops[..i], l)
    {
      assert b[i - |a|] in b;
      var j :| 0 <= j < |a| && a[j].Clean? && a[j].line == l;
      assert ops[..i][j] == a[j];
    }
  }

  /** A byte outside [start, end] in one of the range's lines lies in an edge line that
      the range covers only in part. */
  lemma OutsideIsEdge(size: nat, start: nat, end: nat, b: nat)
    requires size > 0 && start <= end && !(start <= b <= end)
    ensures EdgeCleaned(size, start, end, LineIndex(size, b)) ||
            !(LineIndex(size, start) <= LineIndex(size, b) <= LineIndex(size, end))
  {
    var l := LineIndex(size, b);
    if LineIndex(size, start) <= l <= LineIndex(size, end) {
      if b < start {
        Monotone(b, start, size);
        assert LineStart(size, start) <= b;
      } else {
        Monotone(end, b, size);
        Monotone(end, end + 1, size);
        Monotone(end + 1, b, size);
        assert LineIndex(size, end + 1) == l;
        assert LineStart(size, end + 1) == LineStart(size, end) <= end;
      }
    }
  }

  /** Invalidating a range loses nothing outside it, although whole lines are
      discarded, whatever the cache does meanwhile. */
  lemma InvalidateKeepsOutside(size: nat, start: nat, end: nat, pstart: int, st: State, ops: seq<Op>, b: nat)
    requires size > 0 && start <= end && !(start <= b <= end)
    requires Kernel(ops) == InvalidateRange(size, start, end, pstart)
    ensures ReadByte(size, Run(st, ops), b) == ReadByte(size, st, b)
  {
    var l := LineIndex(size, b);
    OutsideIsEdge(size, start, end, b);
    InvalidateOrder(size, start, end, pstart, l);
    KernelOrder(ops, l);
    CleanedFirstKeeps(st, ops, l);
  }

  lemma {:induction false} RamKept(st: State, ops: seq<Op>, l: nat)
    requires forall op :: op in ops ==> op.Clean? || op.Invalidate?
    requires !CleanIn(ops, l)
    ensures Run(st, ops).ram(l) == st.ram(l)
    decreases |ops|
  {
    if ops != [] {
      var us, t := ops[..|ops| - 1], ops[|ops| - 1];
      assert ops == us + [t];
      forall j | 0 <= j < |us|
        ensures !(us[j].Clean? && us[j].line == l)
      {
        assert us[j] == ops[j];
      }
      assert !(t.Clean? && t.line == l) by { assert ops[|ops| - 1] == t; }
      RamKept(st, us, l);
    }
  }

  lemma CleanInAppend(a: seq<Op>, b: seq<Op>, l: nat)
    requires forall op :: op in b ==> !op.Clean?
    ensures CleanIn(a + b, l) ==> CleanIn(a, l)
  {
    var ops: seq<Op> := a + b;
    forall k | |a| <= k < |ops|
      ensures !ops[k].Clean?
    {
      assert ops[k] == b[k - |a|] && b[k - |a|] in b;
    }
    if CleanIn(ops, l) {
      var j :| 0 <= j < |ops| && ops[j].Clean? && ops[j].line == l;
      assert ops[j] == a[j];
    }
  }

  lemma InvalidateOps(size: nat, start: nat, end: nat, pstart: int, l: nat)
    requires size > 0 && start <= end && LineIndex(size, start) <= l <= LineIndex(size, end)
    ensures var ops := InvalidateRange(size, start, end, pstart);
            (forall op :: op in ops ==> op.Clean? || op.Invalidate?) &&
            (exists op :: op in ops && Drops(op, l)) &&
            (CleanIn(ops, l) ==> EdgeCleaned(size, start, end, l))
  {
    var a, b := EdgeCleans(size, start, end, pstart), RangePass(ByInvalidate, size, start, end, pstart);
    var ops: seq<Op> := a + b;
    EdgeCleansAre(size, start, end, pstart, l);
    PassKinds(ByInvalidate, size, start, pstart, LineIndex(size, start), LineCount(size, start, end));
    var i :| 0 <= i < |b| && b[i] == Make(ByInvalidate, l, pstart + l * size - start);
    assert b[i] in ops && Drops(b[i], l);
    CleanInAppend(a, b, l);
  }

  lemma LineStartIs(size: nat, a: nat)
    requires size > 0
    ensures a == LineStart(size, a) <==> a % size == 0
  {
    var q := a / size;
    assert a == q * size + a % size by { assert a == size * q + a % size; }
    assert LineStart(size, a) == q * size;
  }

  /** The lines cleaned first: all of the range if it starts inside a line, and the last
      one if it ends inside one. */
  lemma EdgeCleanedIs(size: nat, start: nat, end: nat, l: nat)
    requires size > 0 && start <= end && LineIndex(size, start) <= l <= LineIndex(size, end)
    ensures EdgeCleaned(size, start, end, l) <==>
            start % size != 0 || ((end + 1) % size != 0 && l == LineIndex(size, end))
  {
    LineStartIs(size, start);
    LineStartIs(size, end + 1);
  }

  /** Left alone, the cache then holds no line that meets the range, and a line of the
      range reads as before if the range starts inside a line or this is the line it ends
      inside, and else as memory held it. */
  lemma InvalidateInside(size: nat, start: nat, end: nat, pstart: int, st: State, l: nat)
    requires size > 0 && start <= end && LineIndex(size, start) <= l <= LineIndex(size, end)
    ensures var st' := Run(st, InvalidateRange(size, start, end, pstart));
            l !in st'.cached &&
            Seen(st', l) == if start % size != 0 || ((end + 1) % size != 0 && l == LineIndex(size, end))
                            then Seen(st, l) else st.ram(l)
  {
    var ops := InvalidateRange(size, start, end, pstart);
    EdgeCleanedIs(size, start, end, l);
    InvalidateOps(size, start, end, pstart, l);
    LeftInCache(st, ops, l);
    if EdgeCleaned(size, start, end, l) {
      InvalidateOrder(size, start, end, pstart, l);
      CleanedFirstKeeps(st, ops, l);
    } else {
      RamKept(st, ops, l);
    }
  }

  // ----- what is issued, operation by operation

  /** Cleaning and invalidating a range issues one clean for each line with a byte in it,
      in order, and then one clean-and-invalidate for each, all with the physical address
      as far from `pstart` as the line is from `start`. */
  lemma TwoPasses(size: nat, start: nat, end: nat, pstart: int, i: nat)
    requires size > 0 && start <= end
    ensures var lo, n := LineIndex(size, start), LineIndex(size, end) - LineIndex(size, start) + 1;
            var ops := CleanInvalidateRange(size, start, end, pstart);
            n > 0 && |ops| == 2 * n &&
            (i < n ==> ops[i] == Clean(lo + i, pstart + (lo + i) * size - start)) &&
            (n <= i < 2 * n ==> ops[i] == CleanInval(lo + (i - n), pstart + (lo + (i - n)) * size - start))
  {
    var lo, n := LineIndex(size, start), LineCount(size, start, end);
    Monotone(start, end, size);
    PassLength(ByClean, size, start, pstart, lo, n);
    PassLength(ByCleanInval, size, start, pstart, lo, n);
    if i < n {
      PassAt(ByClean, size, start, pstart, lo, n, i);
    } else if i < 2 * n {
      PassAt(ByCleanInval, size, start, pstart, lo, n, i - n);
    }
  }

  /** The physical address of line `l`, for a range that starts at `start` and `pstart`. */
  predicate Located(op: Op, size: nat, start: nat, pstart: int) {
    (op.Clean? || op.Invalidate? || op.CleanInval?) && op.paddr == pstart + op.line * size - start
  }

  lemma PassLocated(kind: Kind, size: nat, start: nat, pstart: int, from: nat, pfrom: int, lo: nat, n: nat)
    requires pfrom - from == pstart - start
    ensures forall op :: op in Pass(kind, size, from, pfrom, lo, n) ==> Located(op, size, start, pstart)
  {
    PassKinds(kind, size, from, pfrom, lo, n);
    var p := Pass(kind, size, from, pfrom, lo, n);
    forall op | op in p
      ensures Located(op, size, start, pstart)
    {
      var i :| 0 <= i < |p| && p[i] == op;
      PassLength(kind, size, from, pfrom, lo, n);
      PassAt(kind, size, from, pfrom, lo, n, i);
    }
  }

  /** So it is for every operation of an invalidation, the edge lines included. */
  lemma InvalidateLocated(size: nat, start: nat, end: nat, pstart: int)
    requires size > 0
    ensures forall op :: op in InvalidateRange(size, start, end, pstart) ==> Located(op, size, start, pstart)
  {
    var lo, n, last := LineIndex(size, start), LineCount(size, start, end), LineStart(size, end);
    PassLocated(ByClean, size, start, pstart, start, pstart, lo, n);
    PassLocated(ByInvalidate, size, start, pstart, start, pstart, lo, n);
    PassLocated(ByClean, size, start, pstart, last, pstart + last - start, LineIndex(size, last),
                LineCount(size, last, last));
  }
}
