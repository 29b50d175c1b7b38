/** The code index: tables of files, symbols and references, and the binding of references to symbols in slices
    between which files are indexed anew or removed (malong/code-index.js). */
module CodeIndex {
  import opened Common

  type Id = nat

  datatype Kind = Call | Import | Extends | Implements | Assign | Use

  datatype Symbol = Symbol(file: Id, name: string)

  /** What the parser says of a reference. */
  datatype Row = Row(name: string, kind: Kind, line: int, callExpr: string)

  datatype Ref = Ref(file: Id, row: Row, target: Option<Id>, targetFile: Option<Id>)

  /** The three tables, and for each the id its next row gets: AUTOINCREMENT never gives an id twice. */
  datatype Db = Db(files: map<Id, Path>, symbols: map<Id, Symbol>, refs: map<Id, Ref>,
                   nextFile: Id, nextSymbol: Id, nextRef: Id)

  /** What is decided outside the tables: the alias map in an import row, the file a module specifier names, and
      whether two files are of one language family. */
  datatype Env = Env(aliases: string -> map<string, string>,
                     resolve: (Path, string, map<Id, Path>) -> Option<Id>,
                     related: (Path, Path) -> bool,
                     localThis: string -> bool)

  const ALIAS_LOCAL_MARKER := "__alias__"

  const Empty := Db(map[], map[], map[], 1, 1, 1)

  // ---- What the tables promise ----

  /** The foreign keys hold, and every id was given out. */
  ghost predicate Consistent(db: Db) {
    && (forall f :: f in db.files ==> f < db.nextFile)
    && (forall s :: s in db.symbols ==> s < db.nextSymbol && db.symbols[s].file in db.files)
    && (forall r :: r in db.refs ==> r < db.nextRef && db.refs[r].file in db.files)
    && (forall r :: r in db.refs && db.refs[r].target.Some? ==> db.refs[r].target.value in db.symbols)
    && (forall r :: r in db.refs && db.refs[r].targetFile.Some? ==> db.refs[r].targetFile.value in db.files)
  }

  predicate IsImport(db: Db, q: Id) {
    q in db.refs && db.refs[q].row.kind == Import
  }

  ghost predicate ImportRow(db: Db, q: Id) {
    q in db.refs && db.refs[q].row.kind == Import
  }

  predicate CarriesAliases(row: Row) {
    row.callExpr != "" && row.callExpr[0] == '{'
  }

  /** Some import of the file gives the name `original` the local name `local`. */
  ghost predicate Aliased(env: Env, db: Db, file: Id, local: string, original: string) {
    exists q :: AliasRow(env, db, q, file, local, original)
  }

  ghost predicate AliasRow(env: Env, db: Db, q: Id, file: Id, local: string, original: string) {
    && ImportRow(db, q) && db.refs[q].file == file && "{" <= db.refs[q].row.callExpr
    && local in env.aliases(db.refs[q].row.callExpr) && env.aliases(db.refs[q].row.callExpr)[local] == original
  }

  /** A symbol that a reference may be bound to: it has the name referred to, or the name that an import of the
      file says is meant. */
  ghost predicate Meant(env: Env, db: Db, ref: Ref, name: string) {
    name == ref.row.name || Aliased(env, db, ref.file, ref.row.name, name)
  }

  /** Every bound reference points to a living symbol that is meant, and the file noted with it is the symbol's. */
  ghost predicate Sound(env: Env, db: Db) {
    forall r :: r in db.refs && db.refs[r].target.Some? ==>
      && db.refs[r].target.value in db.symbols
      && Meant(env, db, db.refs[r], db.symbols[db.refs[r].target.value].name)
      && (db.refs[r].targetFile.Some? ==> db.refs[r].targetFile.value == db.symbols[db.refs[r].target.value].file)
  }

  /** What later states keep of an earlier one: a row that still has its id still says the same, and the
      references of a file are replaced all together. */
  ghost predicate Evolves(old_: Db, new_: Db) {
    && old_.nextFile <= new_.nextFile && old_.nextSymbol <= new_.nextSymbol && old_.nextRef <= new_.nextRef
    && (forall s ::
           s in new_.symbols && s < old_.nextSymbol ==> s in old_.symbols && old_.symbols[s] == new_.symbols[s])
    && (forall r :: r in new_.refs && r < old_.nextRef ==> SameRow(old_, new_, r))
    && (forall r, q ::
           r in new_.refs && r < old_.nextRef && q in old_.refs && old_.refs[q].file == new_.refs[r].file ==>
               q in new_.refs)
  }

  ghost predicate SameRow(old_: Db, new_: Db, r: Id)
    requires r in new_.refs
  {
    r in old_.refs && old_.refs[r].file == new_.refs[r].file && old_.refs[r].row == new_.refs[r].row
  }

  lemma {:induction false} EvolvesTransitive(a: Db, b: Db, c: Db)
    requires Evolves(a, b) && Evolves(b, c) && Consistent(a)
    ensures Evolves(a, c)
  {
    forall r | r in c.refs && r < a.nextRef ensures SameRow(a, c, r) {
      assert SameRow(b, c, r) && SameRow(a, b, r);
    }
    forall r, q | r in c.refs && r < a.nextRef && q in a.refs && a.refs[q].file == c.refs[r].file ensures q in c.refs {
      assert SameRow(b, c, r) && SameRow(a, b, r);
      assert q in b.refs && SameRow(a, b, q);
    }
  }

  /** An alias in force when a snapshot was taken is in force as long as a reference of its file lives. */
  lemma {:induction false} AliasLives(env: Env, snap: Db, db: Db, r: Id, local: string, original: string)
    requires Consistent(snap) && Evolves(snap, db) && r in snap.refs && r in db.refs
    requires Aliased(env, snap, snap.refs[r].file, local, original)
    ensures Aliased(env, db, snap.refs[r].file, local, original)
  {
    assert SameRow(snap, db, r);
    var q :| AliasRow(env, snap, q, snap.refs[r].file, local, original);
    assert q in db.refs && SameRow(snap, db, q);
    assert AliasRow(env, db, q, snap.refs[r].file, local, original);
  }

  // ---- The statements of the program ----

  function Unbound(ref: Ref, gone: set<Id>): Ref {
    if ref.target.Some? && ref.target.value in gone then ref.(target := None) else ref
  }

  /** DELETE FROM symbols WHERE file_id = f; references to them are set to NULL. */
  function DropSymbols(db: Db, f: Id): Db {
    var gone := set s | s in db.symbols && db.symbols[s].file == f;
    db.(symbols := db.symbols - gone, refs := map r | r in db.refs :: Unbound(db.refs[r], gone))
  }

  /** DELETE FROM refs WHERE source_file_id = f */
  function DropRefs(db: Db, f: Id): Db {
    db.(refs := map r | r in db.refs && db.refs[r].file != f :: db.refs[r])
  }

  /** DELETE FROM files WHERE id = f; target files are set to NULL. */
  function DropFile(db: Db, f: Id): Db {
    db.(files := db.files - {f},
        refs := map r | r in db.refs :: if db.refs[r].targetFile == Some(f) then db.refs[r].(targetFile := None)
            else db.refs[r])
  }

  /** INSERT INTO files */
  function AddFile(db: Db, path: Path): Db {
    db.(files := db.files[db.nextFile := path], nextFile := db.nextFile + 1)
  }

  predicate Fresh(first: Id, n: nat, id: Id) {
    first <= id < first + n
  }

  /** INSERT INTO symbols, one row for every name. */
  function AddSymbols(db: Db, f: Id, names: seq<string>): Db {
    db.(symbols := db.symbols +
        (map s: Id | db.nextSymbol <= s < db.nextSymbol + |names| &&
            Fresh(db.nextSymbol, |names|, s) :: Symbol(f, names[s-db.nextSymbol])),
        nextSymbol := db.nextSymbol + |names|)
  }

  /** INSERT INTO refs */
  function AddRefs(db: Db, f: Id, rows: seq<Row>): Db {
    db.(refs := db.refs +
        (map r: Id | db.nextRef <= r < db.nextRef + |rows| &&
            Fresh(db.nextRef, |rows|, r) :: Ref(f, rows[r-db.nextRef], None, None)),
        nextRef := db.nextRef + |rows|)
  }

  /** UPDATE refs SET target_symbol_id = s WHERE id = r */
  function BindLocally(db: Db, r: Id, s: Id): Db
    requires r in db.refs
  {
    db.(refs := db.refs[r := db.refs[r].(target := Some(s))])
  }

  /** The guarded UPDATE of a slice: only a reference that is still there and still unbound, and only to a
      symbol and a file that are still there. */
  function BindGuarded(db: Db, r: Id, s: Id, f: Id): Db {
    if r in db.refs && db.refs[r].target.None? && s in db.symbols && f in db.files
    then db.(refs := db.refs[r := db.refs[r].(target := Some(s), targetFile := Some(f))])
    else db
  }

  /** UPDATE refs SET target ... WHERE source_file_id = file AND target_name = local AND kind = 'call' */
  function Rebind(db: Db, file: Id, local: string, s: Id, f: Id): Db {
    db.(refs := map r | r in db.refs ::
      if db.refs[r].file == file && db.refs[r].row.name == local && db.refs[r].row.kind == Call
      then db.refs[r].(target := Some(s), targetFile := Some(f)) else db.refs[r])
  }

  // ---- What every statement keeps ----

  /** The state is good and continues an earlier one. */
  ghost predicate Good(env: Env, db: Db) {
    Consistent(db) && Sound(env, db)
  }

  /** Emptying a file: afterwards none of its symbols and references is left, and nothing points to them. */
  ghost predicate Emptied(db: Db, f: Id) {
    && (forall s :: s in db.symbols ==> db.symbols[s].file != f)
    && (forall r :: r in db.refs ==> db.refs[r].file != f)
  }

  /** A reference that is meant stays so while its file's references are there. */
  lemma {:induction false} AliasSurvives(env: Env, db: Db, db': Db, r: Id)
    requires Consistent(db) && r in db.refs && r in db'.refs && db'.refs[r].row == db.refs[r].row &&
              db'.refs[r].file == db.refs[r].file
    requires forall q :: q in db.refs && db.refs[q].file == db.refs[r].file ==> q in db'.refs && SameRow(db, db', q)
    ensures forall name :: Meant(env, db, db.refs[r], name) ==> Meant(env, db', db'.refs[r], name)
  {
    forall name | Aliased(env, db, db.refs[r].file, db.refs[r].row.name, name)
      ensures Aliased(env, db', db.refs[r].file, db.refs[r].row.name, name)
    {
      var q :| AliasRow(env, db, q, db.refs[r].file, db.refs[r].row.name, name);
      assert SameRow(db, db', q);
      assert AliasRow(env, db', q, db.refs[r].file, db.refs[r].row.name, name);
    }
  }

  /** Rows and bindings were only taken away, the references of a file all together. */
  ghost predicate Fewer(db: Db, db': Db) {
    && db'.nextFile == db.nextFile && db'.nextSymbol == db.nextSymbol && db'.nextRef == db.nextRef
    && (forall s :: s in db'.symbols ==> s in db.symbols && db'.symbols[s] == db.symbols[s])
    && (forall r :: r in db'.refs ==> FewerBindings(db, db', r))
    && (forall r, q :: r in db'.refs && q in db.refs && db.refs[q].file == db'.refs[r].file ==> q in db'.refs)
  }

  ghost predicate FewerBindings(db: Db, db': Db, r: Id)
    requires r in db'.refs
  {
    && SameRow(db, db', r)
    && (db'.refs[r].target.Some? ==> db'.refs[r].target == db.refs[r].target)
    && (db'.refs[r].targetFile.Some? ==> db'.refs[r].targetFile == db.refs[r].targetFile)
  }

  lemma {:induction false} FewerKeeps(env: Env, db: Db, db': Db)
    requires Good(env, db) && Fewer(db, db') && Consistent(db')
    ensures Good(env, db') && Evolves(db, db')
  {
    forall r | r in db'.refs && db'.refs[r].target.Some?
      ensures Meant(env, db', db'.refs[r], db'.symbols[db'.refs[r].target.value].name)
    {
      assert FewerBindings(db, db', r);
      forall q | q in db.refs && db.refs[q].file == db.refs[r].file ensures q in db'.refs && SameRow(db, db', q) {
        assert FewerBindings(db, db', q);
      }
      AliasSurvives(env, db, db', r);
    }
    forall r | r in db'.refs ensures SameRow(db, db', r) {
      assert FewerBindings(db, db', r);
    }
  }

  lemma {:induction false} DropSymbolsKeeps(env: Env, db: Db, f: Id)
    requires Good(env, db)
    ensures Good(env, DropSymbols(db, f)) && Evolves(db, DropSymbols(db, f))
  {
    FewerKeeps(env, db, DropSymbols(db, f));
  }

  lemma {:induction false} DropRefsKeeps(env: Env, db: Db, f: Id)
    requires Good(env, db)
    ensures Good(env, DropRefs(db, f)) && Evolves(db, DropRefs(db, f))
  {
    FewerKeeps(env, db, DropRefs(db, f));
  }

  lemma {:induction false} ClearKeeps(env: Env, db: Db, f: Id)
    requires Good(env, db)
    ensures var db' := DropRefs(DropSymbols(db, f), f); Good(env, db') && Evolves(db, db') && Emptied(db', f)
  {
    DropSymbolsKeeps(env, db, f);
    DropRefsKeeps(env, DropSymbols(db, f), f);
    EvolvesTransitive(db, DropSymbols(db, f), DropRefs(DropSymbols(db, f), f));
  }

  lemma {:induction false} DropFileKeeps(env: Env, db: Db, f: Id)
    requires Good(env, db) && Emptied(db, f)
    ensures Good(env, DropFile(db, f)) && Evolves(db, DropFile(db, f))
  {
    FewerKeeps(env, db, DropFile(db, f));
  }

  lemma {:induction false} AddFileKeeps(env: Env, db: Db, path: Path)
    requires Good(env, db)
    ensures Good(env, AddFile(db, path)) && Evolves(db, AddFile(db, path)) && Emptied(AddFile(db, path), db.nextFile)
  {
    var db' := AddFile(db, path);
    forall r | r in db'.refs && db'.refs[r].target.Some?
      ensures Meant(env, db', db'.refs[r], db'.symbols[db'.refs[r].target.value].name)
    {
      AliasSurvives(env, db, db', r);
    }
  }

  lemma {:induction false} AddSymbolsKeeps(env: Env, db: Db, f: Id, names: seq<string>)
    requires Good(env, db) && f in db.files
    ensures Good(env, AddSymbols(db, f, names)) && Evolves(db, AddSymbols(db, f, names))
  {
    var db' := AddSymbols(db, f, names);
    forall r | r in db'.refs && db'.refs[r].target.Some?
      ensures Meant(env, db', db'.refs[r], db'.symbols[db'.refs[r].target.value].name)
    {
      AliasSurvives(env, db, db', r);
    }
  }

  lemma {:induction false} AddRefsKeeps(env: Env, db: Db, f: Id, rows: seq<Row>)
    requires Good(env, db) && f in db.files && (forall r :: r in db.refs ==> db.refs[r].file != f)
    ensures Good(env, AddRefs(db, f, rows)) && Evolves(db, AddRefs(db, f, rows))
  {
    var db' := AddRefs(db, f, rows);
    forall r | r in db'.refs && db'.refs[r].target.Some?
      ensures Meant(env, db', db'.refs[r], db'.symbols[db'.refs[r].target.value].name)
    {
      AliasSurvives(env, db, db', r);
    }
  }

  /** Binding a reference, by any of the three updates, to a living symbol that is meant. */
  lemma {:induction false} BindKeeps(env: Env, db: Db, db': Db)
    requires Good(env, db)
    requires db' == db.(refs := db'.refs) && db'.refs.Keys == db.refs.Keys
    requires forall r :: r in db.refs ==> db'.refs[r] == db.refs[r] || BoundAnew(env, db, db.refs[r], db'.refs[r])
    ensures Good(env, db') && Evolves(db, db')
  {
    forall r | r in db'.refs && db'.refs[r].target.Some?
      ensures Meant(env, db', db'.refs[r], db'.symbols[db'.refs[r].target.value].name)
    {
      AliasSurvives(env, db, db', r);
    }
  }

  ghost predicate BoundAnew(env: Env, db: Db, ref: Ref, ref': Ref) {
    && ref'.file == ref.file && ref'.row == ref.row
    && ref'.target.Some? && ref'.target.value in db.symbols
    && Meant(env, db, ref, db.symbols[ref'.target.value].name)
    && (ref'.targetFile.Some? ==> ref'.targetFile.value == db.symbols[ref'.target.value].file)
  }

  // ---- The import map of a snapshot ----

  /** A local name stands for a name in a module. */
  datatype Imported = Imported(module_: string, original: string)

  /** The last import row before id n, and the last that opens a group: rows in a row of one file and line. */
  ghost function LastImport(db: Db, n: Id): Option<Id> {
    if n == 0 then None else if IsImport(db, n - 1) then Some(n - 1) else LastImport(db, n - 1)
  }

  predicate SameGroup(a: Ref, b: Ref) {
    a.file == b.file && a.row.line == b.row.line
  }

  ghost predicate OpensGroup(db: Db, q: Id) {
    && IsImport(db, q)
    && match LastImport(db, q)
       case None => true
       case Some(p) => p in db.refs && !SameGroup(db.refs[p], db.refs[q])
  }

  ghost function LastOpening(db: Db, n: Id): Option<Id> {
    if n == 0 then None else if OpensGroup(db, n - 1) then Some(n - 1) else LastOpening(db, n - 1)
  }

  /** The module that the group of row q is about: the name in the row that opens it. */
  ghost function ModuleAt(db: Db, n: Id): string {
    match LastOpening(db, n)
    case None => ""
    case Some(m) => if m in db.refs then db.refs[m].row.name else ""
  }

  /** What import row q says of a local name. */
  ghost function SaysOf(env: Env, db: Db, q: Id, local: string): Option<Imported>
    requires IsImport(db, q)
  {
    var row := db.refs[q].row;
    if OpensGroup(db, q) then
      if CarriesAliases(row) && local in env.aliases(row.callExpr) && local != "" &&
          env.aliases(row.callExpr)[local] != ""
      then Some(Imported(row.name, env.aliases(row.callExpr)[local])) else None
    else if row.name == local && local != "" then Some(Imported(ModuleAt(db, q), local))
    else None
  }

  /** The first import row of the file, among the rows below id n, that says something of the local name. */
  ghost function ImportOf(env: Env, db: Db, file: Id, local: string, n: Id): Option<Imported> {
    if n == 0 then None
    else
      var earlier := ImportOf(env, db, file, local, n - 1);
      if earlier.Some? then earlier
      else if IsImport(db, n - 1) && db.refs[n-1].file == file then SaysOf(env, db, n - 1, local)
      else None
  }

  lemma {:induction false} ImportedIsMeant(env: Env, db: Db, file: Id, local: string, n: Id)
    requires ImportOf(env, db, file, local, n).Some?
    ensures var original := ImportOf(env, db, file, local, n).value.original;
            original == local || Aliased(env, db, file, local, original)
  {
    if ImportOf(env, db, file, local, n - 1).Some? {
      ImportedIsMeant(env, db, file, local, n - 1);
    } else if OpensGroup(db, n - 1) {
      assert AliasRow(env, db, n - 1, file, local, ImportOf(env, db, file, local, n).value.original);
    }
  }

  /** Import row m is of another file or line than the import row before it. */
  ghost predicate Opens(db: Db, m: Id) {
    && ImportRow(db, m)
    && forall p: Id :: p < m && ImportRow(db, p) && (forall o: Id :: p < o < m ==> !ImportRow(db, o)) ==>
         db.refs[p].file != db.refs[m].file || db.refs[p].row.line != db.refs[m].row.line
  }

  /** Of the rows before q, row m is the last that opens a group. */
  ghost predicate Heads(db: Db, m: Id, q: Id) {
    m < q && Opens(db, m) && forall o: Id :: m < o < q ==> !Opens(db, o)
  }

  /** Import row q of the file says that the local name is a name in a module: the row that opens a group by its
      aliases, with its own name as the module; every other row by its name, in the module of its group. */
  ghost predicate Declares(env: Env, db: Db, q: Id, file: Id, local: string, imp: Imported) {
    && ImportRow(db, q) && db.refs[q].file == file && local != ""
    && if Opens(db, q) then
         && AliasRow(env, db, q, file, local, imp.original) && imp.original != "" && imp.module_ == db.refs[q].row.name
       else
         && db.refs[q].row.name == local && imp.original == local
         && exists m: Id :: Heads(db, m, q) && db.refs[m].row.name == imp.module_
  }

  /** Of the rows below id n, row q is the first that says something of the local name. */
  ghost predicate DeclaresFirst(env: Env, db: Db, q: Id, file: Id, local: string, imp: Imported, n: Id) {
    && q < n && Declares(env, db, q, file, local, imp)
    && forall p: Id, other :: p < q ==> !Declares(env, db, p, file, local, other)
  }

  lemma {:induction false} LastImportMeaning(db: Db, n: Id)
    ensures LastImport(db, n).Some? ==> var p := LastImport(db, n).value; p < n && ImportRow(db, p)
    ensures forall o: Id :: o < n && ImportRow(db, o) ==> LastImport(db, n).Some? && o <= LastImport(db, n).value
  {
    if n > 0 && !IsImport(db, n - 1) {
      LastImportMeaning(db, n - 1);
    }
  }

  lemma {:induction false} OpensMeaning(db: Db, q: Id)
    ensures OpensGroup(db, q) <==> Opens(db, q)
  {
    LastImportMeaning(db, q);
    if ImportRow(db, q) && LastImport(db, q).Some? {
      var p := LastImport(db, q).value;
      assert forall o: Id :: p < o < q ==> !ImportRow(db, o);
      assert forall o: Id :: o < q && ImportRow(db, o) && o != p ==> o < p;
    }
  }

  lemma {:induction false} LastOpeningMeaning(db: Db, n: Id)
    ensures forall m: Id :: LastOpening(db, n) == Some(m) <==> Heads(db, m, n)
    ensures LastOpening(db, n).None? ==> forall m: Id :: m < n ==> !Opens(db, m)
  {
    if n > 0 {
      OpensMeaning(db, n - 1);
      LastOpeningMeaning(db, n - 1);
    }
  }

  /** Below an import row that opens no group there is one that does. */
  lemma {:induction false} SomeRowOpens(db: Db, q: Id)
    requires ImportRow(db, q) && !Opens(db, q)
    ensures LastOpening(db, q).Some?
  {
    LastOpeningMeaning(db, q);
    var p: Id :| p < q && ImportRow(db, p);
    if !Opens(db, p) {
      SomeRowOpens(db, p);
      LastOpeningMeaning(db, p);
    }
  }

  lemma {:induction false} SaysOfMeaning(env: Env, db: Db, q: Id, file: Id, local: string)
    requires IsImport(db, q) && db.refs[q].file == file
    ensures forall imp :: SaysOf(env, db, q, local) == Some(imp) <==> Declares(env, db, q, file, local, imp)
  {
    OpensMeaning(db, q);
    LastOpeningMeaning(db, q);
    if !Opens(db, q) {
      SomeRowOpens(db, q);
    }
  }

  ghost predicate NothingSaid(env: Env, db: Db, file: Id, local: string, n: Id) {
    forall q: Id, imp :: q < n ==> !Declares(env, db, q, file, local, imp)
  }

  /** The import map: a name stands for what the first row of its file that says something of it says. */
  lemma {:induction false} ImportOfMeaning(env: Env, db: Db, file: Id, local: string, n: Id)
    ensures match ImportOf(env, db, file, local, n)
            case Some(imp) => exists q: Id :: DeclaresFirst(env, db, q, file, local, imp, n)
            case None => NothingSaid(env, db, file, local, n)
  {
    if n > 0 {
      var q := n - 1;
      ImportOfMeaning(env, db, file, local, q);
      match ImportOf(env, db, file, local, q)
      case Some(imp) =>
        var p: Id :| DeclaresFirst(env, db, p, file, local, imp, q);
        assert DeclaresFirst(env, db, p, file, local, imp, n) && ImportOf(env, db, file, local, n) == Some(imp);
      case None =>
        if IsImport(db, q) && db.refs[q].file == file {
          SaysOfMeaning(env, db, q, file, local);
          NextSays(env, db, file, local, q, SaysOf(env, db, q, local));
          assert ImportOf(env, db, file, local, n) == SaysOf(env, db, q, local);
        } else {
          NextSays(env, db, file, local, q, None);
          assert ImportOf(env, db, file, local, n) == None;
        }
    }
  }

  lemma {:induction false} NextSays(env: Env, db: Db, file: Id, local: string, q: Id, says: Option<Imported>)
    requires NothingSaid(env, db, file, local, q)
    requires forall imp :: says == Some(imp) <==> Declares(env, db, q, file, local, imp)
    ensures says.Some? ==> DeclaresFirst(env, db, q, file, local, says.value, q + 1)
    ensures says.None? ==> NothingSaid(env, db, file, local, q + 1)
  {
  }

  // ---- Slices ----

  function PathOf(db: Db, f: Id): Path {
    if f in db.files then db.files[f] else ""
  }

  /** What a slice may bind reference r to, judged by its snapshot alone: the imported symbol if the name is
      imported, otherwise a symbol of that name in another file of a related language. */
  ghost predicate Chosen(env: Env, snap: Db, r: Id, s: Id)
    requires r in snap.refs
  {
    var ref := snap.refs[r];
    && s in snap.symbols && ref.file in snap.files && snap.symbols[s].file in snap.files
    && match ImportOf(env, snap, ref.file, ref.row.name, snap.nextRef)
       case Some(imp) =>
         && env.resolve(snap.files[ref.file], imp.module_, snap.files) == Some(snap.symbols[s].file)
         && snap.symbols[s].name == imp.original
       case None =>
         && snap.symbols[s].name == ref.row.name && snap.symbols[s].file != ref.file
         && env.related(snap.files[ref.file], snap.files[snap.symbols[s].file])
  }

  /** The references that are open for binding when the snapshot is taken. */
  predicate Open(ref: Ref) {
    && ref.target.None? && ref.row.name != ""
    && '.' !in ref.row.callExpr && ref.row.callExpr != ALIAS_LOCAL_MARKER
  }

  /** A choice made on an old snapshot, carried out by the guarded update on the present state. */
  lemma {:induction false} StaleChoiceKeeps(env: Env, snap: Db, db: Db, r: Id, s: Id)
    requires Consistent(snap) && Evolves(snap, db) && Good(env, db)
    requires r in snap.refs && Chosen(env, snap, r, s)
    ensures var db' := BindGuarded(db, r, s, snap.symbols[s].file); Good(env, db') && Evolves(db, db')
  {
    var db' := BindGuarded(db, r, s, snap.symbols[s].file);
    if r in db.refs && s in db.symbols {
      assert SameRow(snap, db, r);
      var file, local, name := snap.refs[r].file, snap.refs[r].row.name, snap.symbols[s].name;
      if ImportOf(env, snap, file, local, snap.nextRef).Some? {
        ImportedIsMeant(env, snap, file, local, snap.nextRef);
        if name != local {
          AliasLives(env, snap, db, r, local, name);
        }
      }
      assert Meant(env, db, db.refs[r], name);
    }
    BindKeeps(env, db, db');
  }

  // ---- Runs ----

  /** One step of the index, between two points where the program may be interrupted. */
  datatype Event =
    | Remove(file: Id)
    | Reindex(path: Path, names: seq<string>, rows: seq<Row>)
    | Alias(row: Id, local: string, symbol: Id)
    | Bind(snap: Db, ref: Id, symbol: Id)

  ghost predicate HasPath(db: Db, f: Id, path: Path) {
    f in db.files && db.files[f] == path
  }

  /** The file with its old rows gone and the new ones in. */
  ghost predicate Refilled(db: Db, f: Id, names: seq<string>, rows: seq<Row>, env: Env, db': Db) {
    LocallyBound(env, AddRefs(AddSymbols(DropRefs(DropSymbols(db, f), f), f, names), f, rows), f, db')
  }

  predicate BindsLocally(env: Env, row: Row) {
    && row.name != "" && (row.kind == Call || row.kind == Use || row.kind == Assign)
    && !(row.kind == Call && row.callExpr != "" && !env.localThis(row.callExpr))
  }

  /** The last symbol of the file with the name. */
  ghost predicate LastNamed(db: Db, f: Id, name: string, s: Id) {
    && s in db.symbols && db.symbols[s] == Symbol(f, name)
    && forall t :: t in db.symbols && db.symbols[t] == Symbol(f, name) ==> t <= s
  }

  /** Every reference of the file that names a symbol of the file is bound to the last one of that name. */
  ghost predicate LocallyBound(env: Env, db: Db, f: Id, db': Db) {
    && db' == db.(refs := db'.refs) && db'.refs.Keys == db.refs.Keys
    && forall r :: r in db.refs ==> LocalBinding(env, db, f, db.refs[r], db'.refs[r])
  }

  ghost predicate LocalBinding(env: Env, db: Db, f: Id, ref: Ref, ref': Ref) {
    if ref.file == f && ref.target.None? && BindsLocally(env, ref.row) && exists s :: LastNamed(db, f, ref.row.name, s)
    then ref'.target.Some? && LastNamed(db, f, ref.row.name, ref'.target.value) && ref' == ref.(target := ref'.target)
    else ref' == ref
  }

  ghost predicate Step(env: Env, db: Db, e: Event, db': Db) {
    match e
    case Remove(f) => f in db.files && db' == DropFile(DropRefs(DropSymbols(db, f), f), f)
    case Reindex(path, names, rows) =>
      if exists f :: HasPath(db, f, path) then
          exists f :: HasPath(db, f, path) && Refilled(db, f, names, rows, env, db')
      else Refilled(AddFile(db, path), db.nextFile, names, rows, env, db')
    case Alias(q, local, s) =>
      && IsImport(db, q) && s in db.symbols && AliasRow(env, db, q, db.refs[q].file, local, db.symbols[s].name)
      && db' == Rebind(db, db.refs[q].file, local, s, db.symbols[s].file)
    case Bind(snap, r, s) =>
      r in snap.refs && Chosen(env, snap, r, s) && db' == BindGuarded(db, r, s, snap.symbols[s].file)
  }

  lemma {:induction false} FilledKeeps(env: Env, db: Db, f: Id, names: seq<string>, rows: seq<Row>)
    requires Good(env, db) && f in db.files && Emptied(db, f)
    ensures var db' := AddRefs(AddSymbols(db, f, names), f, rows);
              Good(env, db') && Evolves(db, db') && NoTargetFile(db', f)
  {
    var db1 := AddSymbols(db, f, names);
    AddSymbolsKeeps(env, db, f, names);
    AddRefsKeeps(env, db1, f, rows);
    EvolvesTransitive(db, db1, AddRefs(db1, f, rows));
  }

  ghost predicate NoTargetFile(db: Db, f: Id) {
    forall r :: r in db.refs && db.refs[r].file == f ==> db.refs[r].targetFile.None?
  }

  lemma {:induction false} RefilledKeeps(env: Env, db: Db, f: Id, names: seq<string>, rows: seq<Row>, db': Db)
    requires Good(env, db) && f in db.files && Refilled(db, f, names, rows, env, db')
    ensures Good(env, db') && Evolves(db, db')
  {
    var db1 := DropRefs(DropSymbols(db, f), f);
    ClearKeeps(env, db, f);
    FilledKeeps(env, db1, f, names, rows);
    var db2 := AddRefs(AddSymbols(db1, f, names), f, rows);
    EvolvesTransitive(db, db1, db2);
    LocalBindingKeeps(env, db2, f, db');
    EvolvesTransitive(db, db2, db');
  }

  lemma {:induction false} LocalBindingKeeps(env: Env, db: Db, f: Id, db': Db)
    requires Good(env, db) && LocallyBound(env, db, f, db') && NoTargetFile(db, f)
    ensures Good(env, db') && Evolves(db, db')
  {
    BindKeeps(env, db, db');
  }

  lemma {:induction false} StepKeeps(env: Env, db: Db, e: Event, db': Db)
    requires Good(env, db) && Step(env, db, e, db')
    requires e.Bind? ==> Consistent(e.snap) && Evolves(e.snap, db)
    ensures Good(env, db') && Evolves(db, db')
  {
    match e
    case Remove(f) =>
      var db1 := DropRefs(DropSymbols(db, f), f);
      ClearKeeps(env, db, f);
      DropFileKeeps(env, db1, f);
      EvolvesTransitive(db, db1, db');
    case Reindex(path, names, rows) =>
      if exists f :: HasPath(db, f, path) {
        var f :| HasPath(db, f, path) && Refilled(db, f, names, rows, env, db');
        RefilledKeeps(env, db, f, names, rows, db');
      } else {
        AddFileKeeps(env, db, path);
        RefilledKeeps(env, AddFile(db, path), db.nextFile, names, rows, db');
        EvolvesTransitive(db, AddFile(db, path), db');
      }
    case Alias(q, local, s) => BindKeeps(env, db, db');
    case Bind(snap, r, s) => StaleChoiceKeeps(env, snap, db, r, s);
  }

  /** A run: every state follows from the one before by an event, and every binding was chosen on a snapshot
      that is some earlier state, however many events ago. */
  ghost predicate IsRun(env: Env, states: seq<Db>, events: seq<Event>) {
    && |states| == |events| + 1 && states[0] == Empty
    && forall i :: 0 <= i < |events| ==> Follows(env, states, i, events[i])
  }

  ghost predicate Follows(env: Env, states: seq<Db>, i: nat, e: Event)
    requires i + 1 < |states|
  {
    Step(env, states[i], e, states[i+1]) && (e.Bind? ==> TakenBy(states, i, e.snap))
  }

  ghost predicate TakenBy(states: seq<Db>, i: nat, snap: Db)
    requires i < |states|
  {
    exists j :: 0 <= j <= i && states[j] == snap
  }

  /** The state after n events is good, and so were all before it, which it continues. */
  ghost predicate Steady(env: Env, states: seq<Db>, n: nat)
    requires n < |states|
  {
    forall j :: 0 <= j <= n ==> Good(env, states[j]) && Evolves(states[j], states[n])
  }

  lemma {:induction false} SteadyStep(env: Env, states: seq<Db>, n: nat, e: Event)
    requires 0 < n < |states| && Steady(env, states, n - 1) && Follows(env, states, n - 1, e)
    ensures Steady(env, states, n)
  {
    StepKeeps(env, states[n-1], e, states[n]);
    forall j | 0 <= j < n ensures Evolves(states[j], states[n]) {
      EvolvesTransitive(states[j], states[n-1], states[n]);
    }
  }

  lemma {:induction false} EmptyIsSteady(env: Env, states: seq<Db>)
    requires states != [] && states[0] == Empty
    ensures Steady(env, states, 0)
  {
  }

  /** Whatever the interleaving of indexing, removal, alias resolution and any number of sliced resolutions: the
      index is sound at every point. */
  lemma {:induction false} EveryRunIsSound(env: Env, states: seq<Db>, events: seq<Event>, n: nat)
    requires IsRun(env, states, events) && n < |states|
    ensures Steady(env, states, n)
  {
    if n == 0 {
      EmptyIsSteady(env, states);
    } else {
      EveryRunIsSound(env, states, events, n - 1);
      SteadyStep(env, states, n, events[n-1]);
    }
  }
}
