/**
  Descriptor tables and open files (IXLandSystem/fs/fdtable.c, and the closing of descriptors at exec in
  IXLandSystem/fs/exec.c). Every call is one atomic step; memory does not run out.
 */
module FdTable {
  import opened Links
  import opened FileBooks

  const FD_CLOEXEC := 1

  /** EOK is success. */
  datatype Errno = EOK | EINVAL | EBADF | EMFILE

  class Files {
    const fd: array<File?>

    /** ixland_files_alloc */
    constructor (maxFds: nat)
      ensures fresh(fd) && fd.Length == maxFds && forall i :: 0 <= i < maxFds ==> fd[i] == null
    {
      fd := new File?[maxFds](_ => null);
    }
  }

  ghost predicate TableShown(tables: seq<Files>, slots: seq<seq<File?>>, arrays: set<array<File?>>, k: int)
    reads arrays
  {
    0 <= k < |tables| == |slots| ==> tables[k].fd in arrays && tables[k].fd[..] == slots[k]
  }

  ghost predicate Distinct(tables: seq<Files>) {
    forall j, k :: 0 <= j < k < |tables| ==> tables[j].fd != tables[k].fd
  }

  /** Table k has the slots slots[k]; arrays are the buffers of the tables. */
  ghost predicate TablesShown(tables: seq<Files>, slots: seq<seq<File?>>, arrays: set<array<File?>>)
    reads arrays
  {
    && |tables| == |slots| && Distinct(tables)
    && forall k {:trigger TableShown(tables, slots, arrays, k)} :: TableShown(tables, slots, arrays, k)
  }

  ghost predicate RefShown(refs: map<File, int>, f: File)
    reads f`refs
  {
    f in refs ==> f.refs == refs[f]
  }

  ghost predicate RefsShown(refs: map<File, int>)
    reads refs.Keys`refs
  {
    forall f: File {:trigger RefShown(refs, f)} :: f in refs ==> RefShown(refs, f)
  }

  /** The live tables and files, and the account of their references. */
  class World {
    ghost var tables: seq<Files>
    ghost var arrays: set<array<File?>>
    ghost var book: Book

    ghost predicate Valid()
      reads this, arrays, book.refs.Keys`refs
    {
      TablesShown(tables, book.slots, arrays) && RefsShown(book.refs) && Conserved(book)
    }

    ghost method Record(b: Book)
      requires TablesShown(tables, b.slots, arrays) && RefsShown(b.refs) && Conserved(b)
      modifies `book
      ensures Valid() && book == b
    {
      book := b;
    }

    constructor ()
      ensures Valid() && tables == [] && book == Book([], map[], map[])
    {
      tables, arrays, book := [], {}, Book([], map[], map[]);
    }
  }

  // -- files --

  /** The account says what the files count. */
  lemma CountsAre(w: World)
    requires w.Valid()
    ensures forall f :: f in w.book.refs ==> f.refs == w.book.refs[f] && f in w.book.held
  {
    forall f | f in w.book.refs ensures f.refs == w.book.refs[f] && f in w.book.held {
      assert RefShown(w.book.refs, f) && Balanced(w.book, f);
    }
  }

  method FileAlloc(w: World) returns (file: File)
    requires w.Valid()
    modifies w`book
    ensures w.Valid() && fresh(file) && w.book == Opened(old(w.book), file)
    ensures w.book.slots == old(w.book.slots) && w.book.held == old(w.book.held)[file := 1] && file in w.book.refs && file.refs == 1
  {
    file := new File();
    OpenedKeeps(w.book, file);
    ghost var refs := w.book.refs[file := 1];
    forall f: File | f in refs ensures RefShown(refs, f) {
      assert f == file || RefShown(w.book.refs, f);
    }
    w.Record(Opened(w.book, file));
  }

  /** One reference less. */
  method DropRef(file: File, ghost refs: map<File, int>) returns (freed: bool)
    requires RefsShown(refs) && file in refs
    modifies file`refs
    ensures RefsShown(MinusOne(refs, file)) && (freed <==> refs[file] == 1)
  {
    assert RefShown(refs, file);
    freed := file.refs == 1;
    file.refs := file.refs - 1;
    forall f: File | f in MinusOne(refs, file) ensures RefShown(MinusOne(refs, file), f) {
      assert old(RefShown(refs, f));
    }
  }

  /** One reference more. */
  method AddRef(file: File, ghost refs: map<File, int>)
    requires RefsShown(refs) && file in refs
    modifies file`refs
    ensures RefsShown(refs[file := refs[file] + 1])
  {
    assert RefShown(refs, file);
    file.refs := file.refs + 1;
    forall f: File | f in refs ensures RefShown(refs[file := refs[file] + 1], f) {
      assert old(RefShown(refs, f));
    }
  }

  /** ixland_file_free, called by a holder; the file is freed just when nobody refers to it any more. */
  method FileFree(w: World, file: File?) returns (freed: bool)
    requires w.Valid() && (file != null ==> file in w.book.refs && Holders(w.book, file) > 0)
    modifies w`book, w.book.refs.Keys`refs
    ensures w.Valid() && w.book == if file == null then old(w.book) else Lost(old(w.book), file)
    ensures freed <==> file != null && Holders(w.book, file) + Pointers(w.book.slots, file) == 0
    ensures file != null ==>
      && w.book.slots == old(w.book.slots) && (freed <==> old(file.refs) == 1) && (file in w.book.refs <==> !freed)
      && (if freed then w.book.held == old(w.book.held) - {file}
          else file.refs == old(file.refs) - 1 && w.book.held == old(w.book.held)[file := old(Holders(w.book, file)) - 1])
      && forall f :: f in old(w.book.refs) && f != file ==> f in w.book.refs && f.refs == old(f.refs)
  {
    freed := false;
    if file == null {
      return;
    }
    CountsAre(w);
    LostKeeps(w.book, file);
    assert Balanced(w.book, file);
    freed := DropRef(file, w.book.refs);
    w.Record(Lost(w.book, file));
    CountsAre(w);
  }

  /** ixland_file_dup */
  method FileDup(w: World, file: File?) returns (r: File?)
    requires w.Valid() && (file != null ==> file in w.book.refs)
    modifies w`book, w.book.refs.Keys`refs
    ensures w.Valid() && r == file && (file != null ==> file in old(w.book.held))
    ensures w.book == if file == null then old(w.book) else Gained(old(w.book), file)
    ensures file != null ==>
      && file.refs == old(file.refs) + 1 && w.book.held == old(w.book.held)[file := old(Holders(w.book, file)) + 1]
      && w.book.slots == old(w.book.slots) && forall f :: f in old(w.book.refs) && f != file ==> f.refs == old(f.refs)
  {
    if file == null {
      return null;
    }
    Hold(w, file);
    r := file;
  }

  /** The caller becomes a holder. */
  method Hold(w: World, file: File)
    requires w.Valid() && file in w.book.refs
    modifies w`book, w.book.refs.Keys`refs
    ensures w.Valid() && file in old(w.book.held) && w.book == Gained(old(w.book), file)
    ensures file.refs == old(file.refs) + 1 && w.book.held == old(w.book.held)[file := old(Holders(w.book, file)) + 1]
    ensures w.book.slots == old(w.book.slots) && forall f :: f in old(w.book.refs) && f != file ==> f.refs == old(f.refs)
  {
    CountsAre(w);
    GainedKeeps(w.book, file);
    AddRef(file, w.book.refs);
    w.Record(Gained(w.book, file));
    CountsAre(w);
  }

  // -- descriptors --

  /** ixland_fd_alloc: the first free slot, which refers to the file besides its holders. */
  method FdAlloc(w: World, files: Files?, file: File?, ghost k: nat) returns (fd: int, e: Errno)
    requires w.Valid() && (file != null ==> file in w.book.refs)
    requires files != null ==> k < |w.tables| && w.tables[k] == files
    modifies w`book, w.book.refs.Keys`refs, if files == null then {} else {files.fd}
    ensures w.Valid()
    ensures files == null || file == null ==> fd == -1 && e == EINVAL && w.book == old(w.book)
    ensures files != null && file != null ==> var row := old(w.book.slots[k]);
      if fd >= 0 then
        && e == EOK && fd < |row| && row[fd] == null && (forall i :: 0 <= i < fd ==> row[i] != null)
        && w.book == Entered(old(w.book), k, fd, file)
        && w.book.slots == old(w.book.slots)[k := row[fd := file]] && w.book.held == old(w.book.held)
        && file.refs == old(file.refs) + 1 && forall f :: f in old(w.book.refs) && f != file ==> f.refs == old(f.refs)
      else
        fd == -1 && e == EMFILE && null !in row && w.book == old(w.book)
  {
    if files == null || file == null {
      return -1, EINVAL;
    }
    assert TableShown(w.tables, w.book.slots, w.arrays, k);
    for i := 0 to files.fd.Length
      invariant forall j :: 0 <= j < i ==> files.fd[j] != null
      invariant w.Valid() && w.book == old(w.book) && files.fd[..] == w.book.slots[k]
    {
      if files.fd[i] == null {
        Enter(w, files, k, i, file);
        return i, EOK;
      }
    }
    fd, e := -1, EMFILE;
  }

  method Enter(w: World, files: Files, ghost k: nat, i: nat, file: File)
    requires w.Valid() && file in w.book.refs && k < |w.tables| && w.tables[k] == files
    requires i < files.fd.Length && files.fd[i] == null
    modifies w`book, file`refs, files.fd
    ensures w.Valid() && i < |old(w.book.slots[k])| && w.book == Entered(old(w.book), k, i, file)
    ensures w.book.slots == old(w.book.slots)[k := old(w.book.slots[k])[i := file]] && w.book.held == old(w.book.held)
    ensures file.refs == old(file.refs) + 1
  {
    CountsAre(w);
    assert TableShown(w.tables, w.book.slots, w.arrays, k);
    EnteredKeeps(w.book, k, i, file);
    PutSlot(files, i, file, w.tables, w.book.slots, w.arrays, k);
    AddRef(file, w.book.refs);
    w.Record(Entered(w.book, k, i, file));
    CountsAre(w);
  }

  /** A slot is written. */
  method PutSlot(files: Files, i: nat, x: File?, ghost tables: seq<Files>, ghost slots: seq<seq<File?>>,
                 ghost arrays: set<array<File?>>, ghost k: nat)
    requires TablesShown(tables, slots, arrays) && k < |tables| && tables[k] == files && i < files.fd.Length
    modifies files.fd
    ensures i < |slots[k]| && TablesShown(tables, slots[k := slots[k][i := x]], arrays)
  {
    assert TableShown(tables, slots, arrays, k);
    files.fd[i] := x;
    ghost var slots' := slots[k := slots[k][i := x]];
    forall j ensures TableShown(tables, slots', arrays, j) {
      assert old(TableShown(tables, slots, arrays, j));
    }
  }

  /** A slot that is in use is cleared, and the reference it stood for is dropped. */
  method Clear(w: World, files: Files, ghost k: nat, i: nat)
    requires w.Valid() && k < |w.tables| && w.tables[k] == files && i < files.fd.Length && files.fd[i] != null
    modifies w`book, w.book.refs.Keys`refs, files.fd
    ensures w.Valid() && w.tables == old(w.tables) && i < |old(w.book.slots[k])| && old(w.book.slots[k][i]) == old(files.fd[i])
    ensures old(files.fd[i]) in old(w.book.refs) && w.book == Cleared(old(w.book), k, i)
  {
    assert TableShown(w.tables, w.book.slots, w.arrays, k);
    ClearedKeeps(w.book, k, i);
    var file: File := files.fd[i];
    PutSlot(files, i, null, w.tables, w.book.slots, w.arrays, k);
    var freed := DropRef(file, w.book.refs);
    w.Record(Cleared(w.book, k, i));
  }

  /** ixland_fd_free */
  method FdFree(w: World, files: Files?, fd: int, ghost k: nat) returns (e: Errno)
    requires w.Valid() && (files != null ==> k < |w.tables| && w.tables[k] == files)
    modifies w`book, w.book.refs.Keys`refs, if files == null then {} else {files.fd}
    ensures w.Valid()
    ensures var open := files != null && 0 <= fd < |old(w.book.slots[k])| && old(w.book.slots[k])[fd] != null;
      && e == (if open then EOK else EBADF)
      && (open ==> var file := old(w.book.slots[k])[fd];
           && file in old(w.book.refs) && w.book == Cleared(old(w.book), k, fd)
           && w.book.slots == old(w.book.slots)[k := old(w.book.slots[k])[fd := null]]
           && (if old(w.book.refs)[file] == 1 then file !in w.book.refs && w.book.held == old(w.book.held) - {file}
               else file in w.book.refs && file.refs == old(w.book.refs)[file] - 1 && w.book.held == old(w.book.held))
           && forall f :: f in old(w.book.refs) && f != file ==> f in w.book.refs && f.refs == old(f.refs))
      && (!open ==> w.book == old(w.book))
  {
    if files != null {
      assert TableShown(w.tables, w.book.slots, w.arrays, k);
    }
    if files == null || fd < 0 || fd >= files.fd.Length {
      return EBADF;
    }
    if files.fd[fd] == null {
      return EBADF;
    }
    CountsAre(w);
    Clear(w, files, k, fd);
    CountsAre(w);
    e := EOK;
  }

  /** ixland_fd_lookup: the caller becomes a holder of the file. */
  method FdLookup(w: World, files: Files?, fd: int, ghost k: nat) returns (file: File?, e: Errno)
    requires w.Valid() && (files != null ==> k < |w.tables| && w.tables[k] == files)
    modifies w`book, w.book.refs.Keys`refs
    ensures w.Valid()
    ensures if files != null && 0 <= fd < |old(w.book.slots[k])| then
        && file == old(w.book.slots[k])[fd] && e == EOK
        && if file == null then w.book == old(w.book)
           else
             && file in old(w.book.held) && file in old(w.book.refs) && w.book == Gained(old(w.book), file)
             && file.refs == old(w.book.refs)[file] + 1 && w.book.held == old(w.book.held)[file := old(w.book.held)[file] + 1]
             && w.book.slots == old(w.book.slots) && forall f :: f in old(w.book.refs) && f != file ==> f.refs == old(f.refs)
      else
        file == null && e == EBADF && w.book == old(w.book)
  {
    if files != null {
      assert TableShown(w.tables, w.book.slots, w.arrays, k);
    }
    if files == null || fd < 0 || fd >= files.fd.Length {
      return null, EBADF;
    }
    assert SlotLive(w.book, k, fd);
    file, e := files.fd[fd], EOK;
    if file != null {
      CountsAre(w);
      Hold(w, file);
    }
  }

  // -- tables --

  /** ixland_files_alloc */
  method FilesAlloc(w: World, maxFds: nat) returns (files: Files)
    requires w.Valid()
    modifies w
    ensures w.Valid() && fresh(files) && w.tables == old(w.tables) + [files]
    ensures w.book == old(w.book).(slots := old(w.book.slots) + [seq(maxFds, _ => null)])
  {
    files := new Files(maxFds);
    EmptyTableKeeps(w.book, seq(maxFds, _ => null));
    assert files.fd[..] == seq(maxFds, _ => null);
    AddTable(w, files, w.book.(slots := w.book.slots + [seq(maxFds, _ => null)]));
  }

  ghost method AddTable(w: World, files: Files, b: Book)
    requires TablesShown(w.tables, w.book.slots, w.arrays) && files.fd !in w.arrays
    requires RefsShown(b.refs) && Conserved(b) && b.slots == w.book.slots + [files.fd[..]]
    modifies w
    ensures w.Valid() && w.tables == old(w.tables) + [files] && w.book == b
  {
    var tables, arrays := w.tables + [files], w.arrays + {files.fd};
    forall k ensures TableShown(tables, b.slots, arrays, k) {
      assert TableShown(w.tables, w.book.slots, w.arrays, k);
    }
    forall j, k | 0 <= j < k < |tables| ensures tables[j].fd != tables[k].fd {
      assert TableShown(w.tables, w.book.slots, w.arrays, j);
    }
    w.tables, w.arrays, w.book := tables, arrays, b;
  }

  /** ixland_files_dup: a new table that refers to the same files; nobody else's references change. */
  method FilesDup(w: World, parent: Files?, ghost k: nat) returns (child: Files?, e: Errno)
    requires w.Valid() && (parent != null ==> k < |w.tables| && w.tables[k] == parent)
    modifies w, w.book.refs.Keys`refs
    ensures w.Valid()
    ensures if parent == null then child == null && e == EINVAL && w.book == old(w.book) && w.tables == old(w.tables) else
      && e == EOK && fresh(child) && w.tables == old(w.tables) + [child]
      && w.book.slots == old(w.book.slots) + [old(w.book.slots[k])] && w.book.held == old(w.book.held)
  {
    if parent == null {
      return null, EINVAL;
    }
    assert TableShown(w.tables, w.book.slots, w.arrays, k);
    ghost var row, b := w.book.slots[k], CopiedUpTo(w.book, k, 0);
    var files := new Files(parent.fd.Length);
    assert files.fd[..] == RowCopied(row, 0);
    AddTable(w, files, b);
    for i := 0 to parent.fd.Length
      invariant w.Valid() && w.tables == old(w.tables) + [files] && w.book == CopiedUpTo(old(w.book), k, i)
      invariant w.book.refs.Keys == old(w.book.refs.Keys)
    {
      CopySlot(w, parent, files, k, i, old(w.book));
    }
    assert RowCopied(row, |row|) == row;
    child, e := files, EOK;
  }

  method CopySlot(w: World, parent: Files, child: Files, ghost k: nat, i: nat, ghost b: Book)
    requires w.Valid() && Conserved(b) && k < |b.slots| == |w.tables| - 1 && i < |b.slots[k]|
    requires w.tables[k] == parent && w.tables[|b.slots|] == child && w.book == CopiedUpTo(b, k, i)
    modifies w`book, w.book.refs.Keys`refs, child.fd
    ensures w.Valid() && w.tables == old(w.tables) && w.book == CopiedUpTo(b, k, i + 1) && w.book.refs.Keys == old(w.book.refs.Keys)
  {
    assert TableShown(w.tables, w.book.slots, w.arrays, k) && TableShown(w.tables, w.book.slots, w.arrays, |b.slots|);
    assert SlotLive(w.book, k, i);
    if parent.fd[i] != null {
      Enter(w, child, |b.slots|, i, parent.fd[i]);
    }
  }

  /** ixland_files_free: the table goes, and with it the files that only it referred to. */
  method FilesFree(w: World, files: Files?, ghost k: nat)
    requires w.Valid() && (files != null ==> k < |w.tables| && w.tables[k] == files)
    modifies w, w.book.refs.Keys`refs
    ensures w.Valid()
    ensures if files == null then w.book == old(w.book) && w.tables == old(w.tables)
      else w.tables == Without(old(w.tables), k) && w.book.slots == Without(old(w.book.slots), k) && FreesUnreferenced(old(w.book), w.book)
  {
    if files == null {
      return;
    }
    assert TableShown(w.tables, w.book.slots, w.arrays, k);
    ghost var row := w.book.slots[k];
    DropSlots(files, w.book, k);
    TableFreed(w.book, k);
    ghost var b1 := ClearedUpTo(w.book, k, |row|, All(|row|));
    RemoveTable(w, k, b1.(slots := Without(b1.slots, k)));
  }

  /** The references of all slots are dropped; the slots themselves stay as they are. */
  method DropSlots(files: Files, ghost b: Book, ghost k: nat)
    requires Conserved(b) && k < |b.slots| && files.fd[..] == b.slots[k] && RefsShown(b.refs)
    modifies b.refs.Keys`refs
    ensures RefsShown(ClearedUpTo(b, k, |b.slots[k]|, All(|b.slots[k]|)).refs)
  {
    ghost var row := b.slots[k];
    for i := 0 to files.fd.Length
      invariant RefsShown(ClearedUpTo(b, k, i, All(|row|)).refs)
    {
      DropSlot(files, i, b, k);
    }
    assert files.fd.Length == |row|;
  }

  /** The reference of a slot is dropped; the slot itself stays as it is. */
  method DropSlot(files: Files, i: nat, ghost b: Book, ghost k: nat)
    requires Conserved(b) && k < |b.slots| && files.fd[..] == b.slots[k] && i < files.fd.Length
    requires RefsShown(ClearedUpTo(b, k, i, All(|b.slots[k]|)).refs)
    modifies b.refs.Keys`refs
    ensures RefsShown(ClearedUpTo(b, k, i + 1, All(|b.slots[k]|)).refs)
  {
    ghost var b1 := ClearedUpTo(b, k, i, All(|b.slots[k]|));
    assert files.fd[i] == b.slots[k][i] == b1.slots[k][i];
    if files.fd[i] != null {
      ClearedKeeps(b1, k, i);
      var freed := DropRef(files.fd[i], b1.refs);
    }
  }

  ghost method RemoveTable(w: World, k: nat, b: Book)
    requires TablesShown(w.tables, w.book.slots, w.arrays) && k < |w.tables|
    requires RefsShown(b.refs) && Conserved(b) && b.slots == Without(w.book.slots, k)
    modifies w
    ensures w.Valid() && w.tables == Without(old(w.tables), k) && w.book == b
  {
    var tables := Without(w.tables, k);
    forall j ensures TableShown(tables, b.slots, w.arrays, j) {
      assert TableShown(w.tables, w.book.slots, w.arrays, if j < k then j else j + 1);
    }
    w.tables, w.book := tables, b;
  }

  predicate CloseOnExec(file: File?)
    reads file
  {
    file != null && file.flags % 2 == FD_CLOEXEC
  }

  lemma Flagged(row: seq<File?>) returns (chosen: seq<bool>)
    ensures |chosen| == |row| && forall i :: 0 <= i < |row| ==> (chosen[i] <==> CloseOnExec(row[i]))
  {
    chosen := [];
    for i := 0 to |row|
      invariant |chosen| == i && forall j :: 0 <= j < i ==> (chosen[j] <==> CloseOnExec(row[j]))
    {
      chosen := chosen + [CloseOnExec(row[i])];
    }
  }

  /** ixland_exec_close_cloexec, on the table of the task: exactly the descriptors marked close-on-exec are closed. */
  method CloseCloexec(w: World, files: Files?, ghost k: nat) returns (e: Errno, ghost chosen: seq<bool>)
    requires w.Valid() && (files != null ==> k < |w.tables| && w.tables[k] == files)
    modifies w`book, w.book.refs.Keys`refs, if files == null then {} else {files.fd}
    ensures w.Valid() && e == if files == null then EINVAL else EOK
    ensures if files == null then w.book == old(w.book)
      else var row := old(w.book.slots[k]);
        && |chosen| == |row| && (forall i :: 0 <= i < |row| ==> (chosen[i] <==> old(CloseOnExec(row[i]))))
        && w.book.slots == old(w.book.slots)[k := RowCleared(row, |row|, chosen)] && FreesUnreferenced(old(w.book), w.book)
  {
    chosen := [];
    if files == null {
      return EINVAL, [];
    }
    assert TableShown(w.tables, w.book.slots, w.arrays, k);
    ghost var row := w.book.slots[k];
    chosen := Flagged(row);
    for i := 0 to files.fd.Length
      invariant w.Valid() && w.tables == old(w.tables) && |row| == files.fd.Length
      invariant w.book == ClearedUpTo(old(w.book), k, i, chosen) && w.book.refs.Keys <= old(w.book.refs.Keys)
    {
      CloseSlot(w, files, i, old(w.book), k, chosen);
    }
    ClearedFrees(old(w.book), k, |row|, chosen);
    e := EOK;
  }

  method CloseSlot(w: World, files: Files, i: nat, ghost b: Book, ghost k: nat, ghost chosen: seq<bool>)
    requires w.Valid() && Conserved(b) && k < |b.slots| && i < |b.slots[k]| == |chosen| == files.fd.Length
    requires k < |w.tables| && w.tables[k] == files && w.book == ClearedUpTo(b, k, i, chosen)
    requires chosen[i] <==> CloseOnExec(b.slots[k][i])
    modifies w`book, w.book.refs.Keys`refs, files.fd
    ensures w.Valid() && w.tables == old(w.tables) && w.book == ClearedUpTo(b, k, i + 1, chosen)
  {
    assert TableShown(w.tables, w.book.slots, w.arrays, k);
    assert files.fd[i] == b.slots[k][i];
    if files.fd[i] != null && files.fd[i].flags % 2 == FD_CLOEXEC {
      Clear(w, files, k, i);
    }
  }
}
