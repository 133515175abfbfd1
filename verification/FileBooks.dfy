/**
  Who refers to which open file: the account behind the reference counts of IXLandSystem/fs/fdtable.c.
  A file is referred to by the slots of descriptor tables and by holders outside the tables, such as the
  callers of ixland_file_alloc, ixland_file_dup and ixland_fd_lookup.
 */
module FileBooks {
  import opened Links

  class File {
    var refs: int
    var flags: int

    /** ixland_file_alloc */
    constructor ()
      ensures refs == 1 && flags == 0
    {
      refs, flags := 1, 0;
    }
  }

  /** The slots of all live tables; for each live file its outside holders and its reference count. */
  datatype Book = Book(slots: seq<seq<File?>>, held: map<File, nat>, refs: map<File, int>)

  /** How many slots of the table point to f. */
  function Count(row: seq<File?>, f: File): nat {
    if row == [] then 0 else Count(row[..|row| - 1], f) + if row[|row| - 1] == f then 1 else 0
  }

  /** How many slots of all tables point to f. */
  function Pointers(slots: seq<seq<File?>>, f: File): nat {
    if slots == [] then 0 else Pointers(slots[..|slots| - 1], f) + Count(slots[|slots| - 1], f)
  }

  function Holders(b: Book, f: File): nat {
    if f in b.held then b.held[f] else 0
  }

  /** The reference count of f is the number of its holders and of the slots that point to it. */
  ghost predicate Balanced(b: Book, f: File) {
    f in b.refs ==> f in b.held && b.refs[f] == b.held[f] + Pointers(b.slots, f) > 0
  }

  ghost predicate SlotLive(b: Book, k: int, i: int) {
    0 <= k < |b.slots| && 0 <= i < |b.slots[k]| && b.slots[k][i] != null ==> b.slots[k][i] in b.refs
  }

  ghost predicate Conserved(b: Book) {
    && b.refs.Keys == b.held.Keys
    && (forall f: File {:trigger Balanced(b, f)} :: f in b.refs ==> Balanced(b, f))
    && (forall k, i {:trigger SlotLive(b, k, i)} :: SlotLive(b, k, i))
  }

  lemma {:induction false} CountSet(row: seq<File?>, i: nat, x: File?, f: File)
    requires i < |row|
    ensures Count(row[i := x], f) == Count(row, f) - (if row[i] == f then 1 else 0) + (if x == f then 1 else 0)
  {
    var n := |row| - 1;
    if i < n {
      CountSet(row[..n], i, x, f);
      assert row[i := x][..n] == row[..n][i := x];
    } else {
      assert row[i := x][..n] == row[..n];
    }
  }

  lemma {:induction false} CountAt(row: seq<File?>, i: nat, f: File)
    requires i < |row| && row[i] == f
    ensures Count(row, f) >= 1
  {
    if i < |row| - 1 {
      CountAt(row[..|row| - 1], i, f);
    }
  }

  lemma {:induction false} PointersSet(slots: seq<seq<File?>>, k: nat, row: seq<File?>, f: File)
    requires k < |slots|
    ensures Pointers(slots[k := row], f) == Pointers(slots, f) - Count(slots[k], f) + Count(row, f)
    ensures Pointers(slots, f) >= Count(slots[k], f)
  {
    var n := |slots| - 1;
    if k < n {
      PointersSet(slots[..n], k, row, f);
      assert slots[k := row][..n] == slots[..n][k := row];
    } else {
      assert slots[k := row][..n] == slots[..n];
    }
  }

  lemma {:induction false} PointersWithout(slots: seq<seq<File?>>, k: nat, f: File)
    requires k < |slots|
    ensures Pointers(Without(slots, k), f) == Pointers(slots, f) - Count(slots[k], f)
  {
    var n := |slots| - 1;
    if k < n {
      PointersWithout(slots[..n], k, f);
      assert Without(slots, k)[..n - 1] == Without(slots[..n], k);
    } else {
      assert Without(slots, k) == slots[..n];
    }
  }

  lemma {:induction false} CountNone(row: seq<File?>, f: File)
    requires forall i :: 0 <= i < |row| ==> row[i] != f
    ensures Count(row, f) == 0
  {
    if row != [] {
      CountNone(row[..|row| - 1], f);
    }
  }

  // -- steps --

  function MinusOne(refs: map<File, int>, f: File): map<File, int>
    requires f in refs
  {
    if refs[f] == 1 then refs - {f} else refs[f := refs[f] - 1]
  }

  /** A new file, held by its maker. */
  function Opened(b: Book, f: File): Book {
    b.(held := b.held[f := 1], refs := b.refs[f := 1])
  }

  /** One more holder. */
  function Gained(b: Book, f: File): Book
    requires f in b.held && f in b.refs
  {
    b.(held := b.held[f := b.held[f] + 1], refs := b.refs[f := b.refs[f] + 1])
  }

  /** One holder less; the file is freed when nobody refers to it any more. */
  function Lost(b: Book, f: File): Book
    requires f in b.held && b.held[f] > 0 && f in b.refs
  {
    b.(held := if b.refs[f] == 1 then b.held - {f} else b.held[f := b.held[f] - 1], refs := MinusOne(b.refs, f))
  }

  /** The i-th slot of table k points to f from now on. */
  function Entered(b: Book, k: nat, i: nat, f: File): Book
    requires k < |b.slots| && i < |b.slots[k]| && f in b.refs
  {
    b.(slots := b.slots[k := b.slots[k][i := f]], refs := b.refs[f := b.refs[f] + 1])
  }

  /** The i-th slot of table k is cleared; the file is freed when nobody refers to it any more. */
  function Cleared(b: Book, k: nat, i: nat): Book
    requires k < |b.slots| && i < |b.slots[k]|
    requires var f := b.slots[k][i]; f != null && f in b.refs
  {
    var f: File := b.slots[k][i];
    Book(b.slots[k := b.slots[k][i := null]], if b.refs[f] == 1 then b.held - {f} else b.held, MinusOne(b.refs, f))
  }

  lemma OpenedKeeps(b: Book, f: File)
    requires Conserved(b) && f !in b.refs
    ensures Conserved(Opened(b, f))
  {
    var b' := Opened(b, f);
    forall k, i ensures SlotLive(b', k, i) {
      assert SlotLive(b, k, i);
    }
    Unreferenced(b, f);
    forall g: File | g in b'.refs ensures Balanced(b', g) {
      assert g == f || Balanced(b, g);
    }
  }

  /** No slot points to a file that is not live. */
  lemma Unreferenced(b: Book, f: File)
    requires Conserved(b) && f !in b.refs
    ensures Pointers(b.slots, f) == 0
  {
    forall k, i | 0 <= k < |b.slots| && 0 <= i < |b.slots[k]| ensures b.slots[k][i] != f {
      assert SlotLive(b, k, i);
    }
    PointersNone(b.slots, f);
  }

  lemma {:induction false} PointersNone(slots: seq<seq<File?>>, f: File)
    requires forall k, i :: 0 <= k < |slots| && 0 <= i < |slots[k]| ==> slots[k][i] != f
    ensures Pointers(slots, f) == 0
  {
    if slots != [] {
      var n := |slots| - 1;
      assert slots[n] == slots[n];
      CountNone(slots[n], f);
      assert forall k :: 0 <= k < n ==> slots[..n][k] == slots[k];
      PointersNone(slots[..n], f);
    }
  }

  lemma GainedKeeps(b: Book, f: File)
    requires Conserved(b) && f in b.refs
    ensures f in b.held && Conserved(Gained(b, f))
  {
    var b' := Gained(b, f);
    forall k, i ensures SlotLive(b', k, i) {
      assert SlotLive(b, k, i);
    }
    forall g: File | g in b'.refs ensures Balanced(b', g) {
      assert Balanced(b, g);
    }
  }

  lemma LostKeeps(b: Book, f: File)
    requires Conserved(b) && f in b.refs && f in b.held && b.held[f] > 0
    ensures Conserved(Lost(b, f))
    ensures f in Lost(b, f).refs <==> Holders(Lost(b, f), f) + Pointers(Lost(b, f).slots, f) > 0
  {
    var b' := Lost(b, f);
    assert Balanced(b, f);
    forall k, i ensures SlotLive(b', k, i) {
      assert SlotLive(b, k, i);
      if 0 <= k < |b.slots| && 0 <= i < |b.slots[k]| && b.slots[k][i] == f {
        SlotCounts(b.slots, k, i, f);
      }
    }
    forall g: File | g in b'.refs ensures Balanced(b', g) {
      assert Balanced(b, g);
    }
  }

  lemma SlotCounts(slots: seq<seq<File?>>, k: nat, i: nat, f: File)
    requires k < |slots| && i < |slots[k]| && slots[k][i] == f
    ensures Pointers(slots, f) >= 1
  {
    CountAt(slots[k], i, f);
    PointersSet(slots, k, [], f);
  }

  lemma EnteredKeeps(b: Book, k: nat, i: nat, f: File)
    requires Conserved(b) && f in b.refs && k < |b.slots| && i < |b.slots[k]| && b.slots[k][i] == null
    ensures Conserved(Entered(b, k, i, f))
  {
    var b' := Entered(b, k, i, f);
    forall h, j ensures SlotLive(b', h, j) {
      assert SlotLive(b, h, j);
    }
    forall g: File | g in b'.refs ensures Balanced(b', g) {
      assert Balanced(b, g);
      CountSet(b.slots[k], i, f, g);
      PointersSet(b.slots, k, b.slots[k][i := f], g);
    }
  }

  lemma ClearedKeeps(b: Book, k: nat, i: nat)
    requires Conserved(b) && k < |b.slots| && i < |b.slots[k]| && b.slots[k][i] != null
    ensures var f: File := b.slots[k][i];
      && f in b.refs && Conserved(Cleared(b, k, i))
      && (f in Cleared(b, k, i).refs <==> Holders(Cleared(b, k, i), f) + Pointers(Cleared(b, k, i).slots, f) > 0)
  {
    var f: File := b.slots[k][i];
    assert SlotLive(b, k, i) && Balanced(b, f);
    var b' := Cleared(b, k, i);
    ClearedPointers(b, k, i, f);
    SlotCounts(b.slots, k, i, f);
    forall h, j ensures SlotLive(b', h, j) {
      assert SlotLive(b, h, j);
      if 0 <= h < |b'.slots| && 0 <= j < |b'.slots[h]| && b'.slots[h][j] == f {
        SlotCounts(b'.slots, h, j, f);
      }
    }
    forall g: File | g in b'.refs ensures Balanced(b', g) {
      assert Balanced(b, g);
      ClearedPointers(b, k, i, g);
    }
  }

  lemma ClearedPointers(b: Book, k: nat, i: nat, g: File)
    requires k < |b.slots| && i < |b.slots[k]|
    ensures Pointers(b.slots[k := b.slots[k][i := null]], g) == Pointers(b.slots, g) - if b.slots[k][i] == g then 1 else 0
  {
    CountSet(b.slots[k], i, null, g);
    PointersSet(b.slots, k, b.slots[k][i := null], g);
  }

  /** A table without files comes or goes. */
  lemma EmptyTableKeeps(b: Book, row: seq<File?>)
    requires Conserved(b) && forall i :: 0 <= i < |row| ==> row[i] == null
    ensures Conserved(b.(slots := b.slots + [row]))
  {
    var b' := b.(slots := b.slots + [row]);
    assert b'.slots[..|b.slots|] == b.slots;
    forall k, i ensures SlotLive(b', k, i) {
      assert SlotLive(b, k, i);
    }
    forall g: File | g in b'.refs ensures Balanced(b', g) {
      assert Balanced(b, g);
      CountNone(row, g);
    }
  }

  lemma TableGoneKeeps(b: Book, k: nat)
    requires Conserved(b) && k < |b.slots| && forall i :: 0 <= i < |b.slots[k]| ==> b.slots[k][i] == null
    ensures Conserved(b.(slots := Without(b.slots, k)))
  {
    var b' := b.(slots := Without(b.slots, k));
    forall h, i ensures SlotLive(b', h, i) {
      assert SlotLive(b, if h < k then h else h + 1, i);
    }
    forall g: File | g in b'.refs ensures Balanced(b', g) {
      assert Balanced(b, g);
      CountNone(b.slots[k], g);
      PointersWithout(b.slots, k, g);
    }
  }

  // -- whole tables --

  /** The step touches no holder, and frees exactly the files that nobody refers to any more. */
  ghost predicate FreesUnreferenced(b: Book, b': Book) {
    && b'.refs.Keys <= b.refs.Keys
    && forall f: File {:trigger Fate(b, b', f)} :: f in b.refs ==> Fate(b, b', f)
  }

  ghost predicate Fate(b: Book, b': Book, f: File) {
    Holders(b', f) == Holders(b, f) && (f in b'.refs <==> Holders(b, f) + Pointers(b'.slots, f) > 0)
  }

  /** The row with the chosen ones of its first n slots cleared. */
  function RowCleared(row: seq<File?>, n: nat, chosen: seq<bool>): (r: seq<File?>)
    requires n <= |row| == |chosen|
    ensures |r| == |row| && forall i :: 0 <= i < |row| ==> r[i] == if i < n && chosen[i] then null else row[i]
  {
    seq(|row|, i requires 0 <= i < |row| => if i < n && chosen[i] then null else row[i])
  }

  /** The chosen ones of the first n slots of table k are cleared, in this order. */
  ghost function ClearedUpTo(b: Book, k: nat, n: nat, chosen: seq<bool>): (r: Book)
    requires Conserved(b) && k < |b.slots| && n <= |b.slots[k]| == |chosen|
    ensures Conserved(r) && r.slots == b.slots[k := RowCleared(b.slots[k], n, chosen)] && r.refs.Keys <= b.refs.Keys
  {
    if n == 0 then
      assert RowCleared(b.slots[k], 0, chosen) == b.slots[k];
      b
    else
      var b1 := ClearedUpTo(b, k, n - 1, chosen);
      if b1.slots[k][n - 1] == null || !chosen[n - 1] then
        assert RowCleared(b.slots[k], n - 1, chosen) == RowCleared(b.slots[k], n, chosen);
        b1
      else
        ClearedKeeps(b1, k, n - 1);
        assert RowCleared(b.slots[k], n - 1, chosen)[n - 1 := null] == RowCleared(b.slots[k], n, chosen);
        Cleared(b1, k, n - 1)
  }

  lemma FateStep(b: Book, b1: Book, k: nat, i: nat, f: File)
    requires Conserved(b1) && k < |b1.slots| && i < |b1.slots[k]| && b1.slots[k][i] != null && Fate(b, b1, f)
    ensures b1.slots[k][i] in b1.refs && Fate(b, Cleared(b1, k, i), f)
  {
    var g: File := b1.slots[k][i];
    ClearedKeeps(b1, k, i);
    assert SlotLive(b1, k, i) && Balanced(b1, g);
    ClearedPointers(b1, k, i, f);
    SlotCounts(b1.slots, k, i, g);
  }

  /** Clearing slots frees the files that lose their last reference by it, and no others. */
  lemma {:induction false} ClearedFrees(b: Book, k: nat, n: nat, chosen: seq<bool>)
    requires Conserved(b) && k < |b.slots| && n <= |b.slots[k]| == |chosen|
    ensures FreesUnreferenced(b, ClearedUpTo(b, k, n, chosen))
  {
    var b' := ClearedUpTo(b, k, n, chosen);
    if n == 0 {
      forall f: File | f in b.refs ensures Fate(b, b', f) {
        assert Balanced(b, f);
      }
    } else {
      var b1 := ClearedUpTo(b, k, n - 1, chosen);
      ClearedFrees(b, k, n - 1, chosen);
      forall f: File | f in b.refs ensures Fate(b, b', f) {
        assert Fate(b, b1, f);
        if b1.slots[k][n - 1] != null && chosen[n - 1] {
          FateStep(b, b1, k, n - 1, f);
        }
      }
    }
  }

  function All(n: nat): (s: seq<bool>)
    ensures |s| == n && forall i :: 0 <= i < n ==> s[i]
  {
    seq(n, _ => true)
  }

  /** Table k is cleared and goes. */
  lemma TableFreed(b: Book, k: nat)
    requires Conserved(b) && k < |b.slots|
    ensures var b1 := ClearedUpTo(b, k, |b.slots[k]|, All(|b.slots[k]|));
      var b' := b1.(slots := Without(b1.slots, k));
      Conserved(b') && b'.slots == Without(b.slots, k) && FreesUnreferenced(b, b')
  {
    var row := b.slots[k];
    var b1 := ClearedUpTo(b, k, |row|, All(|row|));
    var b' := b1.(slots := Without(b1.slots, k));
    ClearedFrees(b, k, |row|, All(|row|));
    TableGoneKeeps(b1, k);
    forall f: File | f in b.refs ensures Fate(b, b', f) {
      assert Fate(b, b1, f);
      CountNone(b1.slots[k], f);
      PointersWithout(b1.slots, k, f);
    }
  }

  /** The first n slots of table k are copied to the empty table at the end. */
  function RowCopied(row: seq<File?>, n: nat): (r: seq<File?>)
    requires n <= |row|
    ensures |r| == |row| && forall i :: 0 <= i < |row| ==> r[i] == if i < n then row[i] else null
  {
    seq(|row|, i requires 0 <= i < |row| => if i < n then row[i] else null)
  }

  ghost function CopiedUpTo(b: Book, k: nat, n: nat): (r: Book)
    requires Conserved(b) && k < |b.slots| && n <= |b.slots[k]|
    ensures Conserved(r) && r.slots == b.slots + [RowCopied(b.slots[k], n)] && r.held == b.held
  {
    var last := |b.slots|;
    if n == 0 then
      EmptyTableKeeps(b, RowCopied(b.slots[k], 0));
      b.(slots := b.slots + [RowCopied(b.slots[k], 0)])
    else
      var b1 := CopiedUpTo(b, k, n - 1);
      var f := b.slots[k][n - 1];
      assert f == null ==> RowCopied(b.slots[k], n - 1) == RowCopied(b.slots[k], n);
      if f == null then b1
      else
        assert SlotLive(b1, k, n - 1);
        EnteredKeeps(b1, last, n - 1, f);
        assert RowCopied(b.slots[k], n - 1)[n - 1 := f] == RowCopied(b.slots[k], n);
        Entered(b1, last, n - 1, f)
  }

  // -- whole runs --

  datatype Step = Open(f: File) | Gain(f: File) | Lose(f: File) | Enter(k: nat, i: nat, f: File) | Clear(k: nat, i: nat)
                | AddTable(maxFds: nat) | DropTable(k: nat)

  /** What the calls ask for: a new file is new, a holder gives up what it holds, and a slot is free or in use. */
  ghost predicate Enabled(b: Book, s: Step) {
    match s
    case Open(f) => f !in b.refs
    case Gain(f) => f in b.refs && f in b.held
    case Lose(f) => f in b.refs && f in b.held && b.held[f] > 0
    case Enter(k, i, f) => f in b.refs && k < |b.slots| && i < |b.slots[k]| && b.slots[k][i] == null
    case Clear(k, i) => k < |b.slots| && i < |b.slots[k]| && b.slots[k][i] != null && b.slots[k][i] in b.refs
    case AddTable(_) => true
    case DropTable(k) => k < |b.slots| && forall i :: 0 <= i < |b.slots[k]| ==> b.slots[k][i] == null
  }

  ghost function Do(b: Book, s: Step): Book
    requires Enabled(b, s)
  {
    match s
    case Open(f) => Opened(b, f)
    case Gain(f) => Gained(b, f)
    case Lose(f) => Lost(b, f)
    case Enter(k, i, f) => Entered(b, k, i, f)
    case Clear(k, i) => Cleared(b, k, i)
    case AddTable(n) => b.(slots := b.slots + [seq(n, _ => null)])
    case DropTable(k) => b.(slots := Without(b.slots, k))
  }

  lemma StepKeeps(b: Book, s: Step)
    requires Conserved(b) && Enabled(b, s)
    ensures Conserved(Do(b, s))
  {
    match s {
      case Open(f) => OpenedKeeps(b, f);
      case Gain(f) => GainedKeeps(b, f);
      case Lose(f) => LostKeeps(b, f);
      case Enter(k, i, f) => EnteredKeeps(b, k, i, f);
      case Clear(k, i) => ClearedKeeps(b, k, i);
      case AddTable(n) => EmptyTableKeeps(b, seq(n, _ => null));
      case DropTable(k) => TableGoneKeeps(b, k);
    }
  }

  ghost predicate Possible(b: Book, run: seq<Step>)
    decreases run
  {
    run != [] ==> Enabled(b, run[0]) && Possible(Do(b, run[0]), run[1..])
  }

  ghost function DoAll(b: Book, run: seq<Step>): Book
    requires Possible(b, run)
    decreases run
  {
    if run == [] then b else DoAll(Do(b, run[0]), run[1..])
  }

  lemma {:induction false} RunKeeps(b: Book, run: seq<Step>)
    requires Conserved(b) && Possible(b, run)
    ensures Conserved(DoAll(b, run))
    decreases run
  {
    if run != [] {
      StepKeeps(b, run[0]);
      RunKeeps(Do(b, run[0]), run[1..]);
    }
  }

  /**
    After any run from nothing: a live file has as many references as it has holders and slots, at least
    one; a file that is not live has none at all.
   */
  lemma RunConserves(run: seq<Step>, f: File)
    requires Possible(Book([], map[], map[]), run)
    ensures var b := DoAll(Book([], map[], map[]), run);
      if f in b.refs then b.refs[f] == Holders(b, f) + Pointers(b.slots, f) > 0
      else Holders(b, f) + Pointers(b.slots, f) == 0
  {
    var none := Book([], map[], map[]);
    assert Conserved(none);
    RunKeeps(none, run);
    var b := DoAll(none, run);
    if f in b.refs {
      assert Balanced(b, f);
    } else {
      Unreferenced(b, f);
    }
  }
}
