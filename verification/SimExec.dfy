/**
 The simulated exec phase of driver/strela_core.c: four columns copied one after another, each
 with its input stride, in memory shared by all buffers.
 */
module SimExec {
  import opened Bits
  import opened Binding

  /** A buffer object: where its words are in memory, and its size in bytes. */
  datatype Object = Object(base: nat, bytes: nat)

  /** struct strela_binding. */
  datatype Bound = Bound(obj: Object, offset: nat, count: nat) {
    function Start(): nat { obj.base + offset }
  }

  /** One column pair of a job. */
  datatype Column = Column(input: Bound, stride: nat, output: Bound) {
    /** The words it moves. */
    function Moves(): nat { if input.count < output.count then input.count else output.count }
  }

  /** The object lies in a memory of n words. */
  predicate InMemory(n: nat, o: Object) {
    o.base + o.bytes / WORD_SIZE <= n && o.bytes < U64
  }

  /** What a submit has established about a column: strela_binding_check() passed at both ends. */
  predicate Accepted(n: nat, col: Column) {
    && InMemory(n, col.input.obj) && InMemory(n, col.output.obj)
    && Strided(col.input.offset, col.input.count, col.stride).IsU32()
    && Strided(col.output.offset, col.output.count, 1).IsU32()
    && Check(col.input.obj.bytes, Strided(col.input.offset, col.input.count, col.stride)) == 0
    && Check(col.output.obj.bytes, Strided(col.output.offset, col.output.count, 1)) == 0
  }

  /** Where word i of the input is read. */
  function Source(col: Column, i: nat): nat {
    col.input.Start() + i * col.stride
  }

  function Target(col: Column, i: nat): nat {
    col.output.Start() + i
  }

  /** Every word an accepted column touches is inside its buffers; the u32 index does not wrap. */
  lemma {:induction false} AccessInBounds(n: nat, col: Column, i: nat)
    requires Accepted(n, col) && i < col.Moves()
    ensures Mul32(i, col.stride) == i * col.stride
    ensures col.input.obj.base <= Source(col, i) < col.input.obj.base + col.input.obj.bytes / WORD_SIZE
    ensures col.output.obj.base <= Target(col, i) < col.output.obj.base + col.output.obj.bytes / WORD_SIZE
  {
    var b := Strided(col.input.offset, col.input.count, col.stride);
    CheckIsExact(col.input.obj.bytes, b);
    CheckIsExact(col.output.obj.bytes, Strided(col.output.offset, col.output.count, 1));
    LastRead(i, b);
    ModUnique(i * col.stride, U32, 0, i * col.stride);
    EndInWords(col.input.obj.bytes, b.offset + b.count * b.Step());
    EndInWords(col.output.obj.bytes, col.output.offset + col.output.count);
  }

  lemma {:induction false} LastRead(i: nat, b: Strided)
    requires i < b.count && b.count * b.Step() * WORD_SIZE <= MAX_COLUMN_BYTES
    ensures i * b.stride < b.count * b.Step() < U32
  {
    ProductBound(i, b.stride, i, b.Step());
    assert (i + 1) * b.Step() == i * b.Step() + b.Step();
    ProductBound(i + 1, b.Step(), b.count, b.Step());
  }

  lemma {:induction false} EndInWords(bytes: nat, words: nat)
    requires words * WORD_SIZE <= bytes
    ensures words <= bytes / WORD_SIZE
  {
  }

  /** The words of a column, copied in increasing order. */
  function CopyWords(m: seq<int>, col: Column, n: nat): (r: seq<int>)
    requires n <= col.Moves() && Accepted(|m|, col)
    ensures |r| == |m|
  {
    if n == 0 then m
    else
      var p := CopyWords(m, col, n - 1);
      AccessInBounds(|m|, col, n - 1);
      p[Target(col, n - 1) := p[Source(col, n - 1)]]
  }

  /** strela_sim_bypass_column(). */
  method BypassColumn(mem: array<int>, col: Column) returns (fed: bool)
    requires Accepted(mem.Length, col)
    modifies mem
    ensures fed == (col.output.count <= col.input.count)
    ensures mem[..] == CopyWords(old(mem[..]), col, col.Moves())
  {
    fed := col.output.count <= col.input.count;
    var n := col.Moves();
    if n == 0 {
      return;
    }
    var src, dst := col.input.Start(), col.output.Start();
    ghost var m := mem[..];
    for i := 0 to n
      invariant mem[..] == CopyWords(m, col, i)
    {
      AccessInBounds(mem.Length, col, i);
      mem[dst + i] := mem[src + Mul32(i, col.stride)];
    }
  }

  ghost predicate AllAccepted(n: nat, cols: seq<Column>) {
    forall c | c in cols :: Accepted(n, c)
  }

  /** The first k columns, one after another. */
  function CopyColumns(m: seq<int>, cols: seq<Column>, k: nat): (r: seq<int>)
    requires k <= |cols| && AllAccepted(|m|, cols)
    ensures |r| == |m|
  {
    if k == 0 then m
    else
      var p := CopyColumns(m, cols, k - 1);
      CopyWords(p, cols[k - 1], cols[k - 1].Moves())
  }

  /**
   The exec phase of strela_sim_work(). `aborted[i]` says whether the wait before column i was
   cut short. exec-done is raised just when no wait was cut short and every output gets the
   words it waits for.
   */
  method Execute(mem: array<int>, cols: seq<Column>, aborted: seq<bool>) returns (raised: bool, done: nat)
    requires AllAccepted(mem.Length, cols) && |aborted| == |cols|
    modifies mem
    ensures done <= |cols| && mem[..] == CopyColumns(old(mem[..]), cols, done)
    ensures true !in aborted ==> done == |cols|
    ensures true in aborted ==> done < |cols| && aborted[done] && true !in aborted[..done]
    ensures raised <==> true !in aborted && forall c | c in cols :: c.output.count <= c.input.count
  {
    ghost var m := mem[..];
    var fed := true;
    done := 0;
    while done < |cols|
      invariant done <= |cols| && mem[..] == CopyColumns(m, cols, done)
      invariant true !in aborted[..done]
      invariant fed <==> forall i | 0 <= i < done :: cols[i].output.count <= cols[i].input.count
    {
      if aborted[done] {
        return false, done;
      }
      assert Accepted(mem.Length, cols[done]);
      var f := BypassColumn(mem, cols[done]);
      fed := fed && f;
      done := done + 1;
    }
    assert aborted[..done] == aborted;
    raised := fed;
  }

  // ---------- moves ----------

  /** One word copied. */
  datatype Move = Move(from: nat, to: nat)

  predicate Within(n: nat, moves: seq<Move>) {
    forall i | 0 <= i < |moves| :: moves[i].from < n && moves[i].to < n
  }

  /** The moves, one after another. */
  function Perform(m: seq<int>, moves: seq<Move>): (r: seq<int>)
    requires Within(|m|, moves)
    ensures |r| == |m|
  {
    if moves == [] then m
    else
      var last, p := moves[|moves| - 1], Perform(m, moves[..|moves| - 1]);
      p[last.to := p[last.from]]
  }

  /** r is m after all moves at the same instant. */
  ghost predicate AtOnce(m: seq<int>, r: seq<int>, moves: seq<Move>)
    requires Within(|m|, moves)
  {
    && |r| == |m|
    && (forall i | 0 <= i < |moves| :: r[moves[i].to] == m[moves[i].from])
    && (forall x | 0 <= x < |m| && Spared(moves, x) :: r[x] == m[x])
  }

  /** No move writes word x. */
  ghost predicate Spared(moves: seq<Move>, x: int) {
    forall i | 0 <= i < |moves| :: moves[i].to != x
  }

  ghost predicate DistinctTargets(moves: seq<Move>) {
    forall j, i | 0 <= j < i < |moves| :: moves[j].to != moves[i].to
  }

  /** Move i reads a word in which the earlier move j has put another one. */
  predicate Clash(moves: seq<Move>, j: int, i: int) {
    0 <= j < i < |moves| && moves[j].to == moves[i].from && moves[j].from != moves[i].from
  }

  ghost predicate NoClash(moves: seq<Move>) {
    forall j, i :: !Clash(moves, j, i)
  }

  ghost predicate DistinctWords(m: seq<int>) {
    forall x, y | 0 <= x < y < |m| :: m[x] != m[y]
  }

  lemma {:induction false} NoClashPrefix(moves: seq<Move>, n: nat)
    requires n <= |moves| && NoClash(moves)
    ensures NoClash(moves[..n])
  {
    forall j, i
      ensures !Clash(moves[..n], j, i)
    {
      assert !Clash(moves, j, i);
    }
  }

  /** Without a clash every move reads what was there at the start. */
  lemma {:induction false} NoClashIsAtOnce(m: seq<int>, moves: seq<Move>)
    requires Within(|m|, moves) && DistinctTargets(moves) && NoClash(moves)
    ensures AtOnce(m, Perform(m, moves), moves)
    decreases moves
  {
    if moves != [] {
      var n := |moves| - 1;
      var before, last := moves[..n], moves[n];
      NoClashPrefix(moves, n);
      NoClashIsAtOnce(m, before);
      ReadsOriginal(m, Perform(m, before), moves, n);
    }
  }

  lemma {:induction false} ReadsOriginal(m: seq<int>, p: seq<int>, moves: seq<Move>, n: nat)
    requires Within(|m|, moves) && n < |moves| && Within(|m|, moves[..n]) && AtOnce(m, p, moves[..n])
    requires forall j | 0 <= j < n :: !Clash(moves, j, n)
    ensures p[moves[n].from] == m[moves[n].from]
  {
    var before, x := moves[..n], moves[n].from;
    if !Spared(before, x) {
      var j :| 0 <= j < n && before[j].to == x;
      assert !Clash(moves, j, n);
    }
  }

  /** What a move wrote stays, when no later move has its target. */
  lemma {:induction false} TargetStays(m: seq<int>, moves: seq<Move>, i: nat)
    requires Within(|m|, moves) && DistinctTargets(moves) && i < |moves|
    ensures Perform(m, moves)[moves[i].to] == Perform(m, moves[..i])[moves[i].from]
    decreases moves
  {
    var n := |moves| - 1;
    if i < n {
      TargetStays(m, moves[..n], i);
      assert moves[..n][..i] == moves[..i];
    }
  }

  /** The first clash shows: its target ends up with the wrong word. */
  lemma {:induction false} ClashShows(m: seq<int>, moves: seq<Move>, j: nat, i: nat)
    requires Within(|m|, moves) && DistinctTargets(moves) && DistinctWords(m)
    requires Clash(moves, j, i) && NoClash(moves[..i])
    ensures !AtOnce(m, Perform(m, moves), moves)
  {
    var before := moves[..i];
    NoClashIsAtOnce(m, before);
    assert before[j] == moves[j];
    assert Perform(m, before)[moves[i].from] == m[moves[j].from];
    TargetStays(m, moves, i);
  }

  lemma {:induction false} LastClash(moves: seq<Move>, n: nat, j: nat, i: nat)
    requires 0 < n <= |moves| && Clash(moves[..n], j, i) && NoClash(moves[..n - 1])
    ensures i == n - 1
  {
    assert !Clash(moves[..n - 1], j, i);
  }

  lemma {:induction false} FirstClash(moves: seq<Move>, n: nat) returns (j: nat, i: nat)
    requires n <= |moves| && !NoClash(moves[..n])
    ensures Clash(moves, j, i) && NoClash(moves[..i])
  {
    if n > 0 && !NoClash(moves[..n - 1]) {
      j, i := FirstClash(moves, n - 1);
    } else {
      var j', i' :| Clash(moves[..n], j', i');
      j, i := j', i';
      LastClash(moves, n, j, i);
    }
  }

  /** Moves to distinct words take effect as if at once exactly when none reads a word that was replaced. */
  lemma {:induction false} AtOnceIff(m: seq<int>, moves: seq<Move>)
    requires Within(|m|, moves) && DistinctTargets(moves) && DistinctWords(m)
    ensures AtOnce(m, Perform(m, moves), moves) <==> NoClash(moves)
  {
    if NoClash(moves) {
      NoClashIsAtOnce(m, moves);
    } else {
      assert moves[..|moves|] == moves;
      var j, i := FirstClash(moves, |moves|);
      ClashShows(m, moves, j, i);
    }
  }

  // ---------- the moves of the columns ----------

  function ColumnMoves(col: Column, n: nat): (r: seq<Move>)
    ensures |r| == n && forall i | 0 <= i < n :: r[i] == Move(Source(col, i), Target(col, i))
  {
    if n == 0 then [] else ColumnMoves(col, n - 1) + [Move(Source(col, n - 1), Target(col, n - 1))]
  }

  /** The moves of the first k columns, in the order they are made. */
  function AllMoves(cols: seq<Column>, k: nat): seq<Move>
    requires k <= |cols|
  {
    if k == 0 then [] else AllMoves(cols, k - 1) + ColumnMoves(cols[k - 1], cols[k - 1].Moves())
  }

  lemma {:induction false} PerformAppend(m: seq<int>, a: seq<Move>, b: seq<Move>)
    requires Within(|m|, a) && Within(|m|, b)
    ensures Within(|m|, a + b) && Perform(m, a + b) == Perform(Perform(m, a), b)
    decreases b
  {
    if b == [] {
      assert a + b == a;
    } else {
      var n := |b| - 1;
      PerformAppend(m, a, b[..n]);
      assert (a + b)[..|a| + n] == a + b[..n] && (a + b)[|a| + n] == b[n];
    }
  }

  lemma {:induction false} CopyWordsPerforms(m: seq<int>, col: Column, n: nat)
    requires Accepted(|m|, col) && n <= col.Moves()
    ensures Within(|m|, ColumnMoves(col, n)) && CopyWords(m, col, n) == Perform(m, ColumnMoves(col, n))
  {
    if n > 0 {
      CopyWordsPerforms(m, col, n - 1);
      AccessInBounds(|m|, col, n - 1);
      var all := ColumnMoves(col, n);
      assert all[..n - 1] == ColumnMoves(col, n - 1);
      assert all[n - 1] == Move(Source(col, n - 1), Target(col, n - 1));
    }
  }

  lemma {:induction false} OneColumnPerforms(m: seq<int>, p: seq<int>, before: seq<Move>, col: Column)
    requires Accepted(|m|, col) && Within(|m|, before) && p == Perform(m, before)
    ensures var moves := before + ColumnMoves(col, col.Moves());
      Within(|m|, moves) && CopyWords(p, col, col.Moves()) == Perform(m, moves)
  {
    CopyWordsPerforms(p, col, col.Moves());
    PerformAppend(m, before, ColumnMoves(col, col.Moves()));
  }

  lemma {:induction false} CopyColumnsPerforms(m: seq<int>, cols: seq<Column>, k: nat)
    requires AllAccepted(|m|, cols) && k <= |cols|
    ensures Within(|m|, AllMoves(cols, k)) && CopyColumns(m, cols, k) == Perform(m, AllMoves(cols, k))
  {
    if k > 0 {
      assert Accepted(|m|, cols[k - 1]);
      CopyColumnsPerforms(m, cols, k - 1);
      OneColumnPerforms(m, CopyColumns(m, cols, k - 1), AllMoves(cols, k - 1), cols[k - 1]);
    }
  }

  /** Where move i of column c is among all moves. */
  function Position(cols: seq<Column>, c: nat, i: nat): nat
    requires c <= |cols|
  {
    |AllMoves(cols, c)| + i
  }

  lemma {:induction false} MoveAt(cols: seq<Column>, k: nat, c: nat, i: nat)
    requires c < k <= |cols| && i < cols[c].Moves()
    ensures var x, moves := Position(cols, c, i), AllMoves(cols, k);
      |AllMoves(cols, c)| <= x < |AllMoves(cols, c + 1)| <= |moves| && moves[x] == Move(Source(cols[c], i), Target(cols[c], i))
  {
    var before, last := AllMoves(cols, k - 1), ColumnMoves(cols[k - 1], cols[k - 1].Moves());
    assert AllMoves(cols, k) == before + last;
    if c < k - 1 {
      MoveAt(cols, k - 1, c, i);
    }
  }

  lemma {:induction false} MoveOf(cols: seq<Column>, k: nat, x: nat) returns (c: nat, i: nat)
    requires k <= |cols| && x < |AllMoves(cols, k)|
    ensures c < k && i < cols[c].Moves() && x == Position(cols, c, i)
  {
    if x < |AllMoves(cols, k - 1)| {
      c, i := MoveOf(cols, k - 1, x);
    } else {
      c, i := k - 1, x - |AllMoves(cols, k - 1)|;
    }
  }

  lemma {:induction false} MovesGrow(cols: seq<Column>, c: nat, d: nat)
    requires c <= d <= |cols|
    ensures |AllMoves(cols, c)| <= |AllMoves(cols, d)|
  {
    if c < d {
      MovesGrow(cols, c, d - 1);
    }
  }

  // ---------- one after another, or all at once ----------

  /** Does the column write word x? */
  predicate Writes(col: Column, x: nat) {
    col.output.Start() <= x < col.output.Start() + col.Moves()
  }

  /** Does the column read word x? */
  ghost predicate Reads(col: Column, x: nat) {
    exists i: nat :: i < col.Moves() && Source(col, i) == x
  }

  /** The outputs of two columns do not share a word. */
  ghost predicate Separate(a: Column, b: Column) {
    forall x: nat :: !(Writes(a, x) && Writes(b, x))
  }

  ghost predicate OutputsApart(cols: seq<Column>) {
    forall c, d | 0 <= c < d < |cols| :: Separate(cols[c], cols[d])
  }

  /** m' is m after all columns moved their words at the same instant. */
  ghost predicate Simultaneous(m: seq<int>, m': seq<int>, cols: seq<Column>)
    requires AllAccepted(|m|, cols)
  {
    && |m'| == |m|
    && (forall c, i: nat | 0 <= c < |cols| && i < cols[c].Moves() :: Moved(m, m', cols[c], i))
    && (forall x: nat | x < |m| && Unwritten(cols, x) :: m'[x] == m[x])
  }

  ghost predicate Unwritten(cols: seq<Column>, x: nat) {
    forall c | 0 <= c < |cols| :: !Writes(cols[c], x)
  }

  ghost predicate Moved(m: seq<int>, m': seq<int>, col: Column, i: nat)
    requires Accepted(|m|, col) && i < col.Moves() && |m'| == |m|
  {
    AccessInBounds(|m|, col, i);
    m'[Target(col, i)] == m[Source(col, i)]
  }

  /** Word i of column c is read where word j of column d, moved earlier, has been put, and is another word. */
  predicate Stale(cols: seq<Column>, d: nat, j: nat, c: nat, i: nat) {
    && c < |cols| && d <= c && i < cols[c].Moves() && j < cols[d].Moves() && (d == c ==> j < i)
    && Target(cols[d], j) == Source(cols[c], i) && Source(cols[d], j) != Source(cols[c], i)
  }

  ghost predicate NothingStale(cols: seq<Column>) {
    forall d: nat, j: nat, c: nat, i: nat :: !Stale(cols, d, j, c, i)
  }

  lemma {:induction false} StaleIsClash(cols: seq<Column>, d: nat, j: nat, c: nat, i: nat)
    requires Stale(cols, d, j, c, i)
    ensures Clash(AllMoves(cols, |cols|), Position(cols, d, j), Position(cols, c, i))
  {
    MoveAt(cols, |cols|, d, j);
    MoveAt(cols, |cols|, c, i);
    if d < c {
      MovesGrow(cols, d + 1, c);
    }
  }

  lemma {:induction false} ClashIsStale(cols: seq<Column>, y: nat, x: nat) returns (d: nat, j: nat, c: nat, i: nat)
    requires Clash(AllMoves(cols, |cols|), y, x)
    ensures Stale(cols, d, j, c, i)
  {
    d, j := MoveOf(cols, |cols|, y);
    c, i := MoveOf(cols, |cols|, x);
    MoveAt(cols, |cols|, d, j);
    MoveAt(cols, |cols|, c, i);
    if c < d {
      MovesGrow(cols, c + 1, d);
    }
  }

  lemma {:induction false} NothingStaleIff(cols: seq<Column>)
    ensures NothingStale(cols) <==> NoClash(AllMoves(cols, |cols|))
  {
    var moves := AllMoves(cols, |cols|);
    if !NothingStale(cols) {
      var d, j, c, i :| Stale(cols, d, j, c, i);
      StaleIsClash(cols, d, j, c, i);
    }
    if !NoClash(moves) {
      var y, x :| Clash(moves, y, x);
      var d, j, c, i := ClashIsStale(cols, y, x);
    }
  }

  lemma {:induction false} TargetsAreDistinct(cols: seq<Column>)
    requires OutputsApart(cols)
    ensures DistinctTargets(AllMoves(cols, |cols|))
  {
    var moves := AllMoves(cols, |cols|);
    forall y, x | 0 <= y < x < |moves|
      ensures moves[y].to != moves[x].to
    {
      var d, j := MoveOf(cols, |cols|, y);
      var c, i := MoveOf(cols, |cols|, x);
      MoveAt(cols, |cols|, d, j);
      MoveAt(cols, |cols|, c, i);
      assert Writes(cols[d], Target(cols[d], j)) && Writes(cols[c], Target(cols[c], i));
      if c < d {
        MovesGrow(cols, c + 1, d);
      } else if d < c {
        assert Separate(cols[d], cols[c]);
      }
    }
  }

  lemma {:induction false} UnwrittenIff(cols: seq<Column>, x: nat)
    ensures Unwritten(cols, x) <==> Spared(AllMoves(cols, |cols|), x)
  {
    var moves := AllMoves(cols, |cols|);
    if !Spared(moves, x) {
      var y :| 0 <= y < |moves| && moves[y].to == x;
      var c, i := MoveOf(cols, |cols|, y);
      MoveAt(cols, |cols|, c, i);
      assert Writes(cols[c], x);
    }
    if !Unwritten(cols, x) {
      var c :| 0 <= c < |cols| && Writes(cols[c], x);
      MoveAt(cols, |cols|, c, x - cols[c].output.Start());
    }
  }

  lemma {:induction false} AtOnceIsSimultaneous(m: seq<int>, r: seq<int>, cols: seq<Column>)
    requires AllAccepted(|m|, cols) && Within(|m|, AllMoves(cols, |cols|)) && AtOnce(m, r, AllMoves(cols, |cols|))
    ensures Simultaneous(m, r, cols)
  {
    forall c, i: nat | 0 <= c < |cols| && i < cols[c].Moves()
      ensures Accepted(|m|, cols[c]) && Moved(m, r, cols[c], i)
    {
      MoveAt(cols, |cols|, c, i);
    }
    forall x: nat | x < |m| && Unwritten(cols, x)
      ensures r[x] == m[x]
    {
      UnwrittenIff(cols, x);
    }
  }

  lemma {:induction false} SimultaneousIsAtOnce(m: seq<int>, r: seq<int>, cols: seq<Column>)
    requires AllAccepted(|m|, cols) && Within(|m|, AllMoves(cols, |cols|)) && Simultaneous(m, r, cols)
    ensures AtOnce(m, r, AllMoves(cols, |cols|))
  {
    var moves := AllMoves(cols, |cols|);
    forall x | 0 <= x < |moves|
      ensures r[moves[x].to] == m[moves[x].from]
    {
      var c, i := MoveOf(cols, |cols|, x);
      MoveAt(cols, |cols|, c, i);
      assert Moved(m, r, cols[c], i);
    }
    forall x | 0 <= x < |m| && Spared(moves, x)
      ensures r[x] == m[x]
    {
      UnwrittenIff(cols, x);
    }
  }

  /** On any memory: without a stale read the sequential exec phase has the effect of a parallel one. */
  lemma {:induction false} SequentialIsSimultaneous(m: seq<int>, cols: seq<Column>)
    requires AllAccepted(|m|, cols) && OutputsApart(cols) && NothingStale(cols)
    ensures Simultaneous(m, CopyColumns(m, cols, |cols|), cols)
  {
    CopyColumnsPerforms(m, cols, |cols|);
    TargetsAreDistinct(cols);
    NothingStaleIff(cols);
    NoClashIsAtOnce(m, AllMoves(cols, |cols|));
    AtOnceIsSimultaneous(m, CopyColumns(m, cols, |cols|), cols);
  }

  lemma {:induction false} StaleShows(m: seq<int>, cols: seq<Column>)
    requires AllAccepted(|m|, cols) && OutputsApart(cols) && DistinctWords(m) && !NothingStale(cols)
    ensures !Simultaneous(m, CopyColumns(m, cols, |cols|), cols)
  {
    var r := CopyColumns(m, cols, |cols|);
    CopyColumnsPerforms(m, cols, |cols|);
    TargetsAreDistinct(cols);
    NothingStaleIff(cols);
    AtOnceIff(m, AllMoves(cols, |cols|));
    if Simultaneous(m, r, cols) {
      SimultaneousIsAtOnce(m, r, cols);
    }
  }

  /** And on a memory whose words are all different, only then. */
  lemma {:induction false} SequentialIsSimultaneousIff(m: seq<int>, cols: seq<Column>)
    requires AllAccepted(|m|, cols) && OutputsApart(cols) && DistinctWords(m)
    ensures Simultaneous(m, CopyColumns(m, cols, |cols|), cols) <==> NothingStale(cols)
  {
    if NothingStale(cols) {
      SequentialIsSimultaneous(m, cols);
    } else {
      StaleShows(m, cols);
    }
  }

  lemma {:induction false} Numbered(n: nat) returns (m: seq<int>)
    ensures |m| == n && DistinctWords(m)
  {
    m := seq(n, i => i);
  }

  ghost predicate AlwaysSimultaneous(n: nat, cols: seq<Column>)
    requires AllAccepted(n, cols)
  {
    forall m: seq<int> | |m| == n :: Simultaneous(m, CopyColumns(m, cols, |cols|), cols)
  }

  /**
   Columns with separate outputs give the parallel effect whatever the memory holds if and only
   if no word is read after an earlier move put another word there.
   */
  lemma {:induction false} AlwaysSimultaneousIff(n: nat, cols: seq<Column>)
    requires AllAccepted(n, cols) && OutputsApart(cols)
    ensures AlwaysSimultaneous(n, cols) <==> NothingStale(cols)
  {
    if NothingStale(cols) {
      forall m: seq<int> | |m| == n
        ensures Simultaneous(m, CopyColumns(m, cols, |cols|), cols)
      {
        SequentialIsSimultaneous(m, cols);
      }
    } else {
      var m := Numbered(n);
      StaleShows(m, cols);
    }
  }

  /** Outputs that no column reads are never stale. */
  lemma {:induction false} UnreadOutputsAreFine(cols: seq<Column>)
    requires forall d, c, x: nat | 0 <= d <= c < |cols| && Writes(cols[d], x) :: !Reads(cols[c], x)
    ensures NothingStale(cols)
  {
    forall d: nat, j: nat, c: nat, i: nat
      ensures !Stale(cols, d, j, c, i)
    {
      if Stale(cols, d, j, c, i) {
        assert Writes(cols[d], Target(cols[d], j)) && Reads(cols[c], Source(cols[c], i));
      }
    }
  }

  /** Nor is a column that copies every word onto itself. */
  lemma {:induction false} InPlaceIsFine(col: Column)
    requires col.stride == 1 && col.input.Start() == col.output.Start()
    ensures NothingStale([col])
  {
    assert forall k | 0 <= k < 1 :: [col][k] == col;
  }

  /** The parallel effect is one memory, not several. */
  lemma {:induction false} SimultaneousIsUnique(m: seq<int>, m1: seq<int>, m2: seq<int>, cols: seq<Column>)
    requires AllAccepted(|m|, cols) && Simultaneous(m, m1, cols) && Simultaneous(m, m2, cols)
    ensures m1 == m2
  {
    forall x: nat | x < |m|
      ensures m1[x] == m2[x]
    {
      if c :| 0 <= c < |cols| && Writes(cols[c], x) {
        var i := x - cols[c].output.Start();
        assert Accepted(|m|, cols[c]);
        assert Moved(m, m1, cols[c], i) && Moved(m, m2, cols[c], i);
      } else {
        assert Unwritten(cols, x);
      }
    }
  }

  /** Outputs that share a word filled from two different words have no parallel effect at all. */
  lemma {:induction false} SharedOutputHasNoEffect(m: seq<int>, r: seq<int>, cols: seq<Column>, d: nat, j: nat, c: nat, i: nat)
    requires AllAccepted(|m|, cols) && DistinctWords(m)
    requires d < |cols| && c < |cols| && j < cols[d].Moves() && i < cols[c].Moves()
    requires Target(cols[d], j) == Target(cols[c], i) && Source(cols[d], j) != Source(cols[c], i)
    ensures !Simultaneous(m, r, cols)
  {
    assert Accepted(|m|, cols[d]) && Accepted(|m|, cols[c]);
    AccessInBounds(|m|, cols[d], j);
    AccessInBounds(|m|, cols[c], i);
    assert Simultaneous(m, r, cols) ==> Moved(m, r, cols[d], j);
    assert Simultaneous(m, r, cols) ==> Moved(m, r, cols[c], i);
  }

  /** One column that copies two words one place up, over its own input. */
  const SHIFTED: Column := Column(Bound(Object(0, 12), 0, 2), 1, Bound(Object(0, 12), 1, 2))

  lemma {:induction false} ShiftedIsAccepted()
    ensures Accepted(3, SHIFTED)
  {
    CheckIsExact(12, Strided(0, 2, 1));
    CheckIsExact(12, Strided(1, 2, 1));
  }

  lemma {:induction false} SecondIsStale(cols: seq<Column>)
    requires |cols| == 1 && cols[0].Moves() >= 2 && Source(cols[0], 1) == Target(cols[0], 0)
    requires Source(cols[0], 0) != Source(cols[0], 1)
    ensures OutputsApart(cols) && !NothingStale(cols)
  {
    assert Stale(cols, 0, 0, 0, 1);
  }

  /** A column whose second read is its first write differs from the parallel effect on some memory. */
  lemma {:induction false} OverlapShows(n: nat, cols: seq<Column>)
    requires |cols| == 1 && AllAccepted(n, cols)
    requires cols[0].Moves() >= 2 && Source(cols[0], 1) == Target(cols[0], 0) && Source(cols[0], 0) != Source(cols[0], 1)
    ensures !AlwaysSimultaneous(n, cols)
  {
    SecondIsStale(cols);
    AlwaysSimultaneousIff(n, cols);
  }

  /** The driver accepts such a column. */
  lemma {:induction false} ShiftedDiffers(cols: seq<Column>)
    requires cols == [SHIFTED]
    ensures AllAccepted(3, cols) && !AlwaysSimultaneous(3, cols)
  {
    ShiftedIsAccepted();
    OverlapShows(3, cols);
  }
}
