/** The methods that change the code index (malong/code-index.js: _indexFileDb, _removeFileBound,
    _resolveCrossFileRefs, _resolveAliasedRefs), against the steps that CodeIndex proves sound. */
module Indexer {
  import opened Common
  import opened CodeIndex

  type ImportMap = map<Id, map<string, Imported>>

  function Lookup(imports: ImportMap, file: Id, local: string): Option<Imported> {
    if file in imports && local in imports[file] then Some(imports[file][local]) else None
  }

  /** The map says of every name what the first row that says something of it says. */
  ghost predicate IsImportMap(env: Env, snap: Db, imports: ImportMap) {
    forall f, local :: Lookup(imports, f, local) == ImportOf(env, snap, f, local, snap.nextRef)
  }

  function OrElse(a: Option<Imported>, b: Option<Imported>): Option<Imported> {
    if a.Some? then a else b
  }

  /** The non-empty pairs of an alias map, as imports from one module. */
  function FromAliases(al: map<string, string>, module_: string): map<string, Imported> {
    map k | k in al && k != "" && al[k] != "" :: Imported(module_, al[k])
  }

  /** The import map of a snapshot: the rows are visited by id, and what is said of a name first stands. */
  method BuildImportMap(env: Env, snap: Db) returns (imports: ImportMap)
    ensures IsImportMap(env, snap, imports)
  {
    imports := map[];
    var prev: Option<Id> := None;
    var curModule := "";
    for id := 0 to snap.nextRef
      invariant prev == LastImport(snap, id) && (prev.Some? ==> prev.value in snap.refs)
      invariant curModule == ModuleAt(snap, id)
      invariant forall f, local :: Lookup(imports, f, local) == ImportOf(env, snap, f, local, id)
    {
      if IsImport(snap, id) {
        ghost var before := imports;
        var ref := snap.refs[id];
        var isFirst := prev.None? || !SameGroup(snap.refs[prev.value], ref);
        prev := Some(id);
        var localMap := if ref.file in imports then imports[ref.file] else map[];
        if isFirst {
          curModule := ref.row.name;
          if CarriesAliases(ref.row) {
            localMap := FromAliases(env.aliases(ref.row.callExpr), curModule) + localMap;
          }
        } else if ref.row.name != "" && ref.row.name !in localMap {
          localMap := localMap[ref.row.name := Imported(curModule, ref.row.name)];
        }
        imports := imports[ref.file := localMap];
        forall f, local ensures Lookup(imports, f, local) ==
          if f == ref.file then OrElse(Lookup(before, f, local), SaysOf(env, snap, id, local))
              else Lookup(before, f, local) {
        }
      }
    }
  }

  class Index {
    const env: Env
    var db: Db

    constructor (env: Env)
      ensures this.env == env && db == Empty && Good(env, db)
    {
      this.env, db := env, Empty;
    }

    /** SELECT id FROM files WHERE path = ? */
    method FindFile(path: Path) returns (found: Option<Id>)
      ensures match found case Some(f) => HasPath(db, f, path) case None => forall f :: !HasPath(db, f, path)
    {
      if f :| f in db.files && db.files[f] == path {
        assert HasPath(db, f, path);
        return Some(f);
      }
      found := None;
    }

    method RemoveFile(path: Path) returns (removed: bool)
      requires Good(env, db)
      modifies this`db
      ensures Good(env, db) && Evolves(old(db), db)
      ensures removed <==> exists f :: HasPath(old(db), f, path)
      ensures removed ==>
                exists f ::
                    HasPath(old(db), f, path) && Step(env, old(db), Remove(f), db) && WithoutFile(old(db), f, db)
      ensures !removed ==> db == old(db)
    {
      var row := FindFile(path);
      match row
      case None => removed := false;
      case Some(f) =>
        RemoveMeaning(db, f);
        StepKeeps(env, db, Remove(f), DropFile(DropRefs(DropSymbols(db, f), f), f));
        db := DropSymbols(db, f);
        db := DropRefs(db, f);
        db := DropFile(db, f);
        removed := true;
    }

    method IndexFile(path: Path, names: seq<string>, rows: seq<Row>)
      requires Good(env, db)
      modifies this`db
      ensures Good(env, db) && Evolves(old(db), db)
      ensures Step(env, old(db), Reindex(path, names, rows), db)
      ensures exists f :: NowHolds(env, old(db), f, path, names, rows, db)
    {
      var existing := FindFile(path);
      match existing {
        case Some(f) =>
          assert HasPath(db, f, path);
          Refill(f, true, names, rows);
          RefilledMeaning(env, old(db), f, path, names, rows, db);
        case None =>
          var f := db.nextFile;
          AddFileKeeps(env, db, path);
          db := AddFile(db, path);
          ghost var added := db;
          Refill(f, false, names, rows);
          RefilledMeaning(env, added, f, path, names, rows, db);
          NewFileMeaning(env, old(db), added, f, path, names, rows, db);
      }
      StepKeeps(env, old(db), Reindex(path, names, rows), db);
    }

    /** The rows of a file that has a row of its own: the old ones go, if there may be any, and the new ones
        come. */
    method Refill(f: Id, existing: bool, names: seq<string>, rows: seq<Row>)
      requires Good(env, db) && f in db.files && (existing || Emptied(db, f))
      modifies this`db
      ensures Refilled(old(db), f, names, rows, env, db)
    {
      ClearKeeps(env, db, f);
      if existing {
        db := DropSymbols(db, f);
        db := DropRefs(db, f);
      } else {
        NothingToClear(db, f);
      }
      AddSymbolsKeeps(env, db, f, names);
      db := AddSymbols(db, f, names);
      AddRefsKeeps(env, db, f, rows);
      db := AddRefs(db, f, rows);
      BindLocals(f);
    }

    /** The binding of a file's references to its own symbols. */
    method BindLocals(f: Id)
      requires Consistent(db)
      modifies this`db
      ensures LocallyBound(env, old(db), f, db)
    {
      var symIdMap := MapSymbols(f);
      ghost var before := db;
      for r := 0 to db.nextRef
        invariant db == before.(refs := db.refs) && db.refs.Keys == before.refs.Keys
        invariant forall q :: q in before.refs && q < r ==> LocalBinding(env, before, f, before.refs[q], db.refs[q])
        invariant forall q :: q in before.refs && q >= r ==> db.refs[q] == before.refs[q]
      {
        if r in db.refs && db.refs[r].file == f && db.refs[r].target.None? && BindsLocally(env, db.refs[r].row) {
          var name := db.refs[r].row.name;
          if name in symIdMap {
            assert LastNamed(before, f, name, symIdMap[name]);
            db := BindLocally(db, r, symIdMap[name]);
          }
        }
      }
    }

    /** new Map of the file's symbols by name: a later symbol of the same name takes the place of an earlier. */
    method MapSymbols(f: Id) returns (symIdMap: map<string, Id>)
      requires Consistent(db)
      ensures forall name :: name in symIdMap ==> LastNamed(db, f, name, symIdMap[name])
      ensures forall name :: name !in symIdMap ==> !exists s :: LastNamed(db, f, name, s)
    {
      symIdMap := map[];
      for s := 0 to db.nextSymbol
        invariant forall name :: name in symIdMap ==> LastNamedBelow(db, f, name, symIdMap[name], s)
        invariant forall t :: t in db.symbols && t < s && db.symbols[t].file == f ==> db.symbols[t].name in symIdMap
      {
        if s in db.symbols && db.symbols[s].file == f {
          symIdMap := symIdMap[db.symbols[s].name := s];
        }
      }
    }

    /** One reference of a slice: judged by the snapshot, carried out on the present tables. */
    method BindOne(snap: Db, imports: ImportMap, r: Id) returns (ghost choice: Option<Id>)
      requires Consistent(snap) && Evolves(snap, db) && Good(env, db) && r in snap.refs
      requires IsImportMap(env, snap, imports)
      modifies this`db
      ensures Good(env, db) && Evolves(old(db), db)
      ensures BoundOne(env, snap, old(db), r, db)
      ensures CarriedOut(env, snap, old(db), r, choice, db)
    {
      choice := None;
      var ref := snap.refs[r];
      var path := PathOf(snap, ref.file);
      var hits: set<Id>;
      var imp := Lookup(imports, ref.file, ref.row.name);
      if imp.Some? {
        var targetFile := env.resolve(path, imp.value.module_, snap.files);
        hits := set s | s in snap.symbols && snap.symbols[s].name == imp.value.original &&
            Some(snap.symbols[s].file) == targetFile;
      } else {
        hits := set s | s in snap.symbols && snap.symbols[s].name == ref.row.name && snap.symbols[s].file != ref.file
                     && env.related(path, PathOf(snap, snap.symbols[s].file));
      }
      assert forall s :: s in hits <==> Chosen(env, snap, r, s);
      if hits != {} {
        var s :| s in hits;
        StepKeeps(env, db, Bind(snap, r, s), BindGuarded(db, r, s, snap.symbols[s].file));
        assert Step(env, old(db), Bind(snap, r, s), BindGuarded(db, r, s, snap.symbols[s].file));
        GuardMeaning(env, snap, db, r, s);
        db := BindGuarded(db, r, s, snap.symbols[s].file);
        choice := Some(s);
      }
    }

    /** The loop over the slices. Between two slices anything may happen to the tables: `meanwhile` lists the
        files indexed or removed at each pause. Left alone, it binds every open reference that has something to be
        bound to, and nothing else; whatever happens in between, no slice touches what is bound when it begins. */
    method ResolveCrossFileRefs(yieldEvery: nat, meanwhile: seq<seq<Task>>) returns (ghost slices: seq<(Db, Db)>)
      requires Good(env, db) && yieldEvery > 0
      modifies this`db
      ensures Good(env, db) && Evolves(old(db), db)
      ensures meanwhile == [] ==> Resolved(env, old(db), db, old(db).nextRef)
      ensures SlicesFrom(slices, old(db)) && EndsWith(slices, old(db), db)
    {
      var snap := db;
      var imports := BuildImportMap(env, snap);
      var unbound := OpenRefs(snap);
      StartsOnTrack(env, snap, unbound, meanwhile == []);
      slices := AllSlices(snap, imports, unbound, yieldEvery, meanwhile);
    }

    /** Its loop. */
    method AllSlices(snap: Db, imports: ImportMap, unbound: seq<Id>, yieldEvery: nat, meanwhile: seq<seq<Task>>)
      returns (ghost slices: seq<(Db, Db)>)
      requires Consistent(snap) && db == snap && OnTrack(env, snap, db, Reached(snap, unbound, 0), meanwhile == [])
      requires AllOpen(snap, unbound) && yieldEvery > 0
      requires IsImportMap(env, snap, imports)
      modifies this`db
      ensures OnTrack(env, snap, db, snap.nextRef, meanwhile == [])
      ensures SlicesFrom(slices, snap) && EndsWith(slices, snap, db)
    {
      slices := [];
      var i: nat, pause: nat := 0, 0;
      while i < |unbound|
        invariant OnTrack(env, snap, db, Reached(snap, unbound, i), meanwhile == [])
        invariant SlicesTo(slices, snap, i, |unbound|, db)
      {
        i, pause, slices := Turn(snap, imports, unbound, i, yieldEvery, meanwhile, pause, slices);
      }
    }

    /** One turn: a slice, and behind it a pause if there is more to come. */
    method Turn(snap: Db, imports: ImportMap, unbound: seq<Id>, i: nat, yieldEvery: nat, meanwhile: seq<seq<Task>>,
                pause: nat, ghost slices: seq<(Db, Db)>)
      returns (i': nat, pause': nat, ghost slices': seq<(Db, Db)>)
      requires Consistent(snap) && OnTrack(env, snap, db, Reached(snap, unbound, i), meanwhile == [])
      requires AllOpen(snap, unbound) && i < |unbound| && yieldEvery > 0
      requires IsImportMap(env, snap, imports)
      requires SlicesTo(slices, snap, i, |unbound|, db)
      modifies this`db
      ensures i' == i + yieldEvery && OnTrack(env, snap, db, Reached(snap, unbound, i'), meanwhile == [])
      ensures pause' == if i' < |unbound| && pause < |meanwhile| then pause + 1 else pause
      ensures SlicesTo(slices', snap, i', |unbound|, db)
    {
      i', slices' := NextSlice(snap, imports, unbound, i, yieldEvery, meanwhile == [], slices);
      pause' := pause;
      if i' < |unbound| && pause < |meanwhile| {
        Interrupt(meanwhile[pause], snap, Reached(snap, unbound, i'), slices', i', |unbound|,
            meanwhile == []);
        pause' := pause + 1;
      }
    }

    /** The pause behind a slice that is not the last. */
    method Interrupt(tasks: seq<Task>, ghost snap: Db, ghost n: Id, ghost slices: seq<(Db, Db)>, ghost i: nat,
                     ghost m: nat,
                     ghost alone: bool)
      requires Consistent(snap) && OnTrack(env, snap, db, n, alone) && SlicesTo(slices, snap, i, m, db) && 0 < i < m &&
                !alone
      modifies this`db
      ensures OnTrack(env, snap, db, n, alone) && SlicesTo(slices, snap, i, m, db)
    {
      Pause(tasks, snap);
    }

    /** The slice from place i on, with the list of slices kept. */
    method NextSlice(snap: Db, imports: ImportMap, unbound: seq<Id>, i: nat, yieldEvery: nat, ghost alone: bool,
                     ghost slices: seq<(Db, Db)>)
      returns (i': nat, ghost slices': seq<(Db, Db)>)
      requires Consistent(snap) && OnTrack(env, snap, db, Reached(snap, unbound, i), alone)
      requires AllOpen(snap, unbound) && i < |unbound| && yieldEvery > 0
      requires IsImportMap(env, snap, imports)
      requires SlicesTo(slices, snap, i, |unbound|, db)
      modifies this`db
      ensures i' == i + yieldEvery && OnTrack(env, snap, db, Reached(snap, unbound, i'), alone)
      ensures SlicesTo(slices', snap, i', |unbound|, db)
    {
      i' := i + yieldEvery;
      ghost var before := db;
      Slice(snap, imports, unbound, i, if i' < |unbound| then i' else |unbound|, alone);
      SlicesGrow(slices, snap, before, db);
      slices' := slices + [(before, db)];
    }

    /** One slice: the references unbound[from..to]. */
    method Slice(snap: Db, imports: ImportMap, unbound: seq<Id>, from: nat, to: nat, ghost alone: bool)
      requires Consistent(snap) && OnTrack(env, snap, db, Reached(snap, unbound, from), alone)
      requires AllOpen(snap, unbound) && from < to <= |unbound|
      requires IsImportMap(env, snap, imports)
      modifies this`db
      ensures OnTrack(env, snap, db, Reached(snap, unbound, to), alone)
      ensures KeepsBound(old(db), db)
    {
      for k := from to to
        invariant OnTrack(env, snap, db, Reached(snap, unbound, k), alone)
        invariant KeepsBound(old(db), db)
      {
        BindNext(snap, imports, unbound, k, alone);
      }
    }

    method BindNext(snap: Db, imports: ImportMap, unbound: seq<Id>, k: nat, ghost alone: bool)
      requires Consistent(snap) && OnTrack(env, snap, db, Reached(snap, unbound, k), alone)
      requires AllOpen(snap, unbound) && k < |unbound|
      requires IsImportMap(env, snap, imports)
      modifies this`db
      ensures OnTrack(env, snap, db, Reached(snap, unbound, k + 1), alone)
      ensures KeepsBound(old(db), db)
    {
      assert unbound[k] in unbound;
      ghost var _ := BindOne(snap, imports, unbound[k]);
      StillOnTrack(env, snap, unbound, k, old(db), db, alone);
    }

    /** The turn given to others between two slices. */
    method Pause(tasks: seq<Task>, ghost snap: Db)
      requires Good(env, db) && Consistent(snap) && Evolves(snap, db)
      modifies this`db
      ensures Good(env, db) && Evolves(snap, db)
    {
      Perform(tasks);
      EvolvesTransitive(snap, old(db), db);
    }

    method Perform(tasks: seq<Task>)
      requires Good(env, db)
      modifies this`db
      ensures Good(env, db) && Evolves(old(db), db)
    {
      ghost var start := db;
      for i := 0 to |tasks|
        invariant Good(env, db) && Evolves(start, db)
      {
        ghost var before := db;
        match tasks[i] {
          case IndexTask(path, names, rows) => IndexFile(path, names, rows);
          case RemoveTask(path) => var _ := RemoveFile(path);
          case AliasTask => ResolveAliasedRefs();
        }
        EvolvesTransitive(start, before, db);
      }
    }

    /** Call references by a local alias are bound, or bound anew, to a symbol the alias stands for: all of those for
        which some alias of their file leads to a symbol, and no others. */
    method ResolveAliasedRefs()
      requires Good(env, db)
      modifies this`db
      ensures Good(env, db) && Evolves(old(db), db)
      ensures Rebound(env, old(db), db, old(db).nextRef, {})
    {
      ghost var start := db;
      NothingYet(env, start);
      for q := 0 to db.nextRef
        invariant Good(env, db) && Rebound(env, start, db, q, AllNames(env, start, q)) && db.nextRef == start.nextRef
      {
        RebindRow(q, start);
      }
      NothingLater(env, start, db);
      ReboundEvolves(env, start, db);
    }

    /** One import row. */
    method RebindRow(q: Id, ghost start: Db)
      requires Good(env, db) && Rebound(env, start, db, q, AllNames(env, start, q))
      modifies this`db
      ensures Good(env, db) && Rebound(env, start, db, q + 1, AllNames(env, start, q + 1))
    {
      SameImport(env, start, db, q);
      if IsImport(db, q) && CarriesAliases(db.refs[q].row) {
        var ref := db.refs[q];
        var al := env.aliases(ref.row.callExpr);
        var targetFile := env.resolve(PathOf(db, ref.file), ref.row.name, db.files);
        if targetFile.Some? {
          RebindNames(q, al, targetFile.value, start);
        }
      }
      RowDone(env, start, db, q);
    }

    /** Its names. */
    method RebindNames(q: Id, al: map<string, string>, targetFile: Id, ghost start: Db)
      requires Good(env, db) && Rebound(env, start, db, q, al.Keys)
      requires q in start.refs &&
                forall local :: local in al ==> AliasRow(env, start, q, start.refs[q].file, local, al[local])
      requires env.resolve(PathOf(start, start.refs[q].file), start.refs[q].row.name, start.files) == Some(targetFile)
      modifies this`db
      ensures Good(env, db) && Rebound(env, start, db, q, {})
    {
      var locals := al.Keys;
      while locals != {}
        invariant Good(env, db) && Rebound(env, start, db, q, locals) && locals <= al.Keys
        decreases locals
      {
        var local :| local in locals;
        RebindOne(q, local, al[local], targetFile, start, locals);
        locals := locals - {local};
      }
    }

    /** One pair of an alias map. */
    method RebindOne(q: Id, local: string, original: string, targetFile: Id, ghost start: Db, ghost todo: set<string>)
      requires Good(env, db) && Rebound(env, start, db, q, todo) && local in todo
      requires q in start.refs && AliasRow(env, start, q, start.refs[q].file, local, original)
      requires env.resolve(PathOf(start, start.refs[q].file), start.refs[q].row.name, start.files) == Some(targetFile)
      modifies this`db
      ensures Good(env, db) && Rebound(env, start, db, q, todo - {local})
    {
      ghost var before := db;
      if local != "" && original != "" {
        if s :| s in db.symbols && db.symbols[s].name == original && db.symbols[s].file == targetFile {
          var file := db.refs[q].file;
          assert AliasRow(env, db, q, file, local, db.symbols[s].name);
          var db' := Rebind(db, file, local, s, db.symbols[s].file);
          StepKeeps(env, db, Alias(q, local, s), db');
          db := db';
          PairBinds(env, start, before, q, local, s, todo);
          return;
        }
      }
      PairIdle(env, start, db, q, local, todo);
    }
  }

  // ---- What removal and indexing leave in the tables, row by row ----

  /** The binding of a row of another file, when the symbols of file f go. */
  ghost predicate LosesSymbolsOf(db: Db, f: Id, ref: Ref, ref': Ref) {
    && ref'.file == ref.file && ref'.row == ref.row
    && ref'.target == if ref.target.Some? && ref.target.value in db.symbols && db.symbols[ref.target.value].file == f
                      then None else ref.target
  }

  /** File f is gone with its symbols and references; the rest stays, only what pointed there is unbound. */
  ghost predicate WithoutFile(db: Db, f: Id, db': Db) {
    && db'.nextFile == db.nextFile && db'.nextSymbol == db.nextSymbol && db'.nextRef == db.nextRef
    && (forall g :: g in db'.files <==> g in db.files && g != f)
    && (forall g :: g in db'.files ==> db'.files[g] == db.files[g])
    && (forall s :: s in db'.symbols <==> s in db.symbols && db.symbols[s].file != f)
    && (forall s :: s in db'.symbols ==> db'.symbols[s] == db.symbols[s])
    && (forall r :: r in db'.refs <==> r in db.refs && db.refs[r].file != f)
    && (forall r :: r in db'.refs ==>
          && LosesSymbolsOf(db, f, db.refs[r], db'.refs[r])
          && db'.refs[r].targetFile == if db.refs[r].targetFile == Some(f) then None else db.refs[r].targetFile)
  }

  lemma {:induction false} RemoveMeaning(db: Db, f: Id)
    ensures WithoutFile(db, f, DropFile(DropRefs(DropSymbols(db, f), f), f))
  {
  }

  /** What the parser says is found for reference r of the file: bound to the last of the file's symbols with its name
      if it is a call, a use or an assignment, and no call of a member of something else than this. */
  ghost predicate FoundLocally(env: Env, db: Db, f: Id, row: Row, ref: Ref) {
    && ref.file == f && ref.row == row && ref.targetFile.None?
    && if row.name != "" && row.kind in {Call, Use, Assign}
          && (row.kind == Call && row.callExpr != "" ==> env.localThis(row.callExpr))
          && exists s :: LastNamed(db, f, row.name, s)
       then ref.target.Some? && LastNamed(db, f, row.name, ref.target.value) else ref.target.None?
  }

  /** File f with this path holds exactly these symbols and references, under new ids in their order. The rows of all
      other files stay, only what pointed to the file's old symbols is unbound. */
  ghost predicate NowHolds(env: Env, db: Db, f: Id, path: Path, names: seq<string>, rows: seq<Row>, db': Db) {
    && (if f in db.files then db.files[f] == path && db'.nextFile == db.nextFile
        else f == db.nextFile && db'.nextFile == f + 1 && forall g :: !HasPath(db, g, path))
    && db'.files == db.files[f := path]
    && HoldsSymbols(db, f, names, db') && HoldsRefs(env, db, f, rows, db')
  }

  ghost predicate HoldsSymbols(db: Db, f: Id, names: seq<string>, db': Db) {
    && db'.nextSymbol == db.nextSymbol + |names|
    && (forall s :: s in db'.symbols <==>
          IsFresh(db.nextSymbol, |names|, s) || (s in db.symbols && db.symbols[s].file != f))
    && (forall i :: 0 <= i < |names| ==> SymbolIs(db', db.nextSymbol + i, Symbol(f, names[i])))
    && (forall s :: s in db.symbols && db.symbols[s].file != f ==> SymbolIs(db', s, db.symbols[s]))
  }

  ghost predicate RefIds(db: Db, f: Id, n: nat, db': Db) {
    && db'.nextRef == db.nextRef + n
    && (forall r :: r in db'.refs <==> IsFresh(db.nextRef, n, r) || (r in db.refs && db.refs[r].file != f))
  }

  ghost predicate HoldsRefs(env: Env, db: Db, f: Id, rows: seq<Row>, db': Db) {
    && RefIds(db, f, |rows|, db')
    && (forall i :: 0 <= i < |rows| ==> RefFoundLocally(env, db', f, rows[i], db.nextRef + i))
    && (forall r :: r in db.refs && db.refs[r].file != f ==> KeptRef(db, f, r, db'))
  }

  /** The same before anything is bound. */
  ghost predicate HoldsUnbound(db: Db, f: Id, rows: seq<Row>, db': Db) {
    && RefIds(db, f, |rows|, db')
    && (forall i :: 0 <= i < |rows| ==> RefIs(db', db.nextRef + i, Ref(f, rows[i], None, None)))
    && (forall r :: r in db.refs && db.refs[r].file != f ==> KeptRef(db, f, r, db'))
  }

  ghost predicate RefIs(db: Db, r: Id, ref: Ref) {
    r in db.refs && db.refs[r] == ref
  }

  ghost predicate IsFresh(first: Id, n: nat, id: Id) {
    first <= id < first + n
  }

  ghost predicate SymbolIs(db: Db, s: Id, symbol: Symbol) {
    s in db.symbols && db.symbols[s] == symbol
  }

  ghost predicate RefFoundLocally(env: Env, db: Db, f: Id, row: Row, r: Id) {
    r in db.refs && FoundLocally(env, db, f, row, db.refs[r])
  }

  ghost predicate KeptRef(db: Db, f: Id, r: Id, db': Db)
    requires r in db.refs
  {
    r in db'.refs && LosesSymbolsOf(db, f, db.refs[r], db'.refs[r]) && db'.refs[r].targetFile == db.refs[r].targetFile
  }

  lemma {:induction false} RefilledMeaning(env: Env, db: Db, f: Id, path: Path, names: seq<string>, rows: seq<Row>,
                                           db': Db)
    requires Consistent(db) && HasPath(db, f, path) && Refilled(db, f, names, rows, env, db')
    ensures NowHolds(env, db, f, path, names, rows, db')
  {
    var filled := FilledMeaning(env, db, f, names, rows, db');
    BoundMeaning(env, db, f, names, rows, filled, db');
    assert db'.files == db.files[f := path];
  }

  lemma {:induction false} FilledMeaning(env: Env, db: Db, f: Id, names: seq<string>, rows: seq<Row>, db': Db)
      returns (filled: Db)
    requires Consistent(db) && Refilled(db, f, names, rows, env, db')
    ensures LocallyBound(env, filled, f, db') && HoldsSymbols(db, f, names, filled) && HoldsUnbound(db, f, rows, filled)
    ensures filled.files == db.files && filled.nextFile == db.nextFile
  {
    filled := AddRefs(AddSymbols(DropRefs(DropSymbols(db, f), f), f, names), f, rows);
    FilledSymbols(db, f, names, rows, filled);
    FilledRefs(db, f, names, rows, filled);
  }

  lemma {:induction false} BoundMeaning(env: Env, db: Db, f: Id, names: seq<string>, rows: seq<Row>, filled: Db,
                                        db': Db)
    requires LocallyBound(env, filled, f, db') && HoldsSymbols(db, f, names, filled) &&
              HoldsUnbound(db, f, rows, filled)
    ensures HoldsSymbols(db, f, names, db') && HoldsRefs(env, db, f, rows, db')
    ensures db'.files == filled.files && db'.nextFile == filled.nextFile
  {
    forall i | 0 <= i < |rows| ensures RefFoundLocally(env, db', f, rows[i], db.nextRef + i) {
      assert RefIs(filled, db.nextRef + i, Ref(f, rows[i], None, None));
      BoundRow(env, filled, f, rows[i], db.nextRef + i, db');
    }
    forall r | r in db.refs && db.refs[r].file != f ensures KeptRef(db, f, r, db') {
      KeptRow(env, db, filled, f, r, db');
    }
  }

  lemma {:induction false} BoundRow(env: Env, filled: Db, f: Id, row: Row, r: Id, db': Db)
    requires LocallyBound(env, filled, f, db') && r in filled.refs && filled.refs[r] == Ref(f, row, None, None)
    ensures RefFoundLocally(env, db', f, row, r)
  {
    assert LocalBinding(env, filled, f, filled.refs[r], db'.refs[r]);
    assert forall s :: LastNamed(filled, f, row.name, s) <==> LastNamed(db', f, row.name, s);
  }

  lemma {:induction false} KeptRow(env: Env, db: Db, filled: Db, f: Id, r: Id, db': Db)
    requires LocallyBound(env, filled, f, db') && r in db.refs && db.refs[r].file != f && KeptRef(db, f, r, filled)
    ensures KeptRef(db, f, r, db')
  {
    assert LocalBinding(env, filled, f, filled.refs[r], db'.refs[r]);
  }

  lemma {:induction false} FilledSymbols(db: Db, f: Id, names: seq<string>, rows: seq<Row>, filled: Db)
    requires Consistent(db) && filled == AddRefs(AddSymbols(DropRefs(DropSymbols(db, f), f), f, names), f, rows)
    ensures HoldsSymbols(db, f, names, filled) && filled.files == db.files && filled.nextFile == db.nextFile
  {
    var dropped := DropRefs(DropSymbols(db, f), f);
    DroppedSymbols(db, f);
    AddedSymbols(dropped, f, names);
    SymbolsTogether(db, f, names, dropped, filled);
  }

  lemma {:induction false} DroppedSymbols(db: Db, f: Id)
    ensures KeepsSymbols(db, f, DropRefs(DropSymbols(db, f), f))
  {
  }

  ghost predicate KeepsSymbols(db: Db, f: Id, dropped: Db) {
    && dropped.nextSymbol == db.nextSymbol
    && (forall s :: s in dropped.symbols <==> s in db.symbols && db.symbols[s].file != f)
    && (forall s :: s in dropped.symbols ==> dropped.symbols[s] == db.symbols[s])
  }

  ghost predicate GainsSymbols(db: Db, f: Id, names: seq<string>, added: Db) {
    && added.nextSymbol == db.nextSymbol + |names|
    && (forall s :: s in added.symbols <==> IsFresh(db.nextSymbol, |names|, s) || s in db.symbols)
    && (forall i :: 0 <= i < |names| ==> SymbolIs(added, db.nextSymbol + i, Symbol(f, names[i])))
    && (forall s :: s in db.symbols ==> SymbolIs(added, s, db.symbols[s]))
  }

  lemma {:induction false} SymbolsTogether(db: Db, f: Id, names: seq<string>, dropped: Db, filled: Db)
    requires KeepsSymbols(db, f, dropped) && GainsSymbols(dropped, f, names, filled)
    ensures HoldsSymbols(db, f, names, filled)
  {
  }

  lemma {:induction false} AddedSymbols(db: Db, f: Id, names: seq<string>)
    requires forall s :: s in db.symbols ==> s < db.nextSymbol
    ensures GainsSymbols(db, f, names, AddSymbols(db, f, names))
  {
    var added := AddSymbols(db, f, names);
    forall i | 0 <= i < |names| ensures SymbolIs(added, db.nextSymbol + i, Symbol(f, names[i])) {
      assert Fresh(db.nextSymbol, |names|, db.nextSymbol + i);
    }
    forall s ensures s in added.symbols <==> IsFresh(db.nextSymbol, |names|, s) || s in db.symbols {
      assert IsFresh(db.nextSymbol, |names|, s) <==> Fresh(db.nextSymbol, |names|, s);
    }
  }

  lemma {:induction false} FilledRefs(db: Db, f: Id, names: seq<string>, rows: seq<Row>, filled: Db)
    requires Consistent(db) && filled == AddRefs(AddSymbols(DropRefs(DropSymbols(db, f), f), f, names), f, rows)
    ensures HoldsUnbound(db, f, rows, filled)
  {
    var dropped := DropRefs(DropSymbols(db, f), f);
    DroppedRefs(db, f);
    var base := AddSymbols(dropped, f, names);
    AddedRefs(base, f, rows);
    AddedToDropped(db, f, base, rows, filled);
  }

  lemma {:induction false} AddedToDropped(db: Db, f: Id, base: Db, rows: seq<Row>, filled: Db)
    requires base.nextRef == db.nextRef && (forall r :: r in base.refs <==> r in db.refs && db.refs[r].file != f)
    requires forall r :: r in db.refs && db.refs[r].file != f ==> KeptRef(db, f, r, base)
    requires Appended(base, f, rows, filled)
    ensures HoldsUnbound(db, f, rows, filled)
  {
    forall r | r in db.refs && db.refs[r].file != f ensures KeptRef(db, f, r, filled) {
      assert KeptRef(db, f, r, base) && RefIs(filled, r, base.refs[r]);
    }
  }

  ghost predicate Appended(db: Db, f: Id, rows: seq<Row>, added: Db) {
    && added.nextRef == db.nextRef + |rows|
    && (forall r :: r in added.refs <==> IsFresh(db.nextRef, |rows|, r) || r in db.refs)
    && (forall i :: 0 <= i < |rows| ==> RefIs(added, db.nextRef + i, Ref(f, rows[i], None, None)))
    && (forall r :: r in db.refs ==> RefIs(added, r, db.refs[r]))
  }

  lemma {:induction false} DroppedRefs(db: Db, f: Id)
    ensures var dropped := DropRefs(DropSymbols(db, f), f);
            && dropped.nextRef == db.nextRef &&
                   (forall r :: r in dropped.refs <==> r in db.refs && db.refs[r].file != f)
            && (forall r :: r in db.refs && db.refs[r].file != f ==> KeptRef(db, f, r, dropped))
  {
  }

  lemma {:induction false} AddedRefs(db: Db, f: Id, rows: seq<Row>)
    requires forall r :: r in db.refs ==> r < db.nextRef
    ensures Appended(db, f, rows, AddRefs(db, f, rows))
  {
    var added := AddRefs(db, f, rows);
    forall i | 0 <= i < |rows| ensures RefIs(added, db.nextRef + i, Ref(f, rows[i], None, None)) {
      assert Fresh(db.nextRef, |rows|, db.nextRef + i);
    }
    forall r ensures r in added.refs <==> IsFresh(db.nextRef, |rows|, r) || r in db.refs {
      assert IsFresh(db.nextRef, |rows|, r) <==> Fresh(db.nextRef, |rows|, r);
    }
  }

  /** The same for a file that was not known: in the tables without it nothing points to it. */
  lemma {:induction false} NewFileMeaning(env: Env, db: Db, added: Db, f: Id, path: Path, names: seq<string>,
                                          rows: seq<Row>, db': Db)
    requires Consistent(db) && added == AddFile(db, path) && f == db.nextFile && forall g :: !HasPath(db, g, path)
    requires NowHolds(env, added, f, path, names, rows, db')
    ensures NowHolds(env, db, f, path, names, rows, db')
  {
    assert f !in db.files && added.symbols == db.symbols && added.refs == db.refs;
    assert db'.files == db.files[f := path];
    assert HoldsSymbols(db, f, names, db');
  }

  ghost predicate AllOpen(snap: Db, unbound: seq<Id>) {
    && (forall r :: r in unbound <==> r in snap.refs && Open(snap.refs[r]))
    && (forall i, j :: 0 <= i < j < |unbound| ==> unbound[i] < unbound[j])
  }

  /** The id of the k-th open reference: those below it have been dealt with. */
  ghost function Reached(snap: Db, unbound: seq<Id>, k: nat): Id {
    if k < |unbound| then unbound[k] else snap.nextRef
  }

  /** The tables when the open references below id n have been bound as far as there is a choice. */
  ghost predicate Resolved(env: Env, snap: Db, db: Db, n: Id) {
    && db == snap.(refs := db.refs) && db.refs.Keys == snap.refs.Keys
    && forall r :: r in snap.refs ==> Resolution(env, snap, db, r, n)
  }

  ghost predicate Resolution(env: Env, snap: Db, db: Db, r: Id, n: Id)
    requires r in snap.refs && r in db.refs
  {
    if r < n && Open(snap.refs[r]) && exists s :: Chosen(env, snap, r, s)
    then exists s ::
        Chosen(env, snap, r, s) &&
            db.refs[r] == snap.refs[r].(target := Some(s), targetFile := Some(snap.symbols[s].file))
    else db.refs[r] == snap.refs[r]
  }

  /** Reference r was dealt with: bound to a choice as far as the guard lets it, or left for want of a choice. */
  ghost predicate BoundOne(env: Env, snap: Db, db: Db, r: Id, db': Db)
    requires r in snap.refs
  {
    if exists s :: Chosen(env, snap, r, s) then exists s :: Step(env, db, Bind(snap, r, s), db') else db' == db
  }

  /** The choice for reference r is one the snapshot allows, if it allows any. It is carried out exactly if the
      reference is there and unbound, and the symbol and its file are still there; nothing else changes. */
  ghost predicate CarriedOut(env: Env, snap: Db, db: Db, r: Id, choice: Option<Id>, db': Db)
    requires r in snap.refs
  {
    && (choice.Some? ==> Chosen(env, snap, r, choice.value))
    && (choice.None? ==> forall s :: !Chosen(env, snap, r, s))
    && db' == db.(refs := db'.refs) && db'.refs.Keys == db.refs.Keys
    && (forall q :: q in db.refs && q != r ==> db'.refs[q] == db.refs[q])
    && (r in db.refs ==>
          db'.refs[r] == if db.refs[r].target.None? && choice.Some? && choice.value in db.symbols &&
              FileOf(snap, choice.value) in db.files
                         then Ref(db.refs[r].file, db.refs[r].row, choice, Some(FileOf(snap, choice.value)))
                             else db.refs[r])
  }

  lemma {:induction false} GuardMeaning(env: Env, snap: Db, db: Db, r: Id, s: Id)
    requires r in snap.refs && Chosen(env, snap, r, s)
    ensures CarriedOut(env, snap, db, r, Some(s), BindGuarded(db, r, s, snap.symbols[s].file))
  {
  }

  ghost function FileOf(db: Db, s: Id): Id {
    if s in db.symbols then db.symbols[s].file else 0
  }

  /** The tables but for bindings are as before, and what was bound is bound as before. */
  ghost predicate KeepsBound(db: Db, db': Db) {
    && db' == db.(refs := db'.refs) && db'.refs.Keys == db.refs.Keys
    && forall q :: q in db.refs && db.refs[q].target.Some? ==> db'.refs[q] == db.refs[q]
  }

  /** The slices so far, of which the first began with the snapshot. */
  ghost predicate SlicesFrom(slices: seq<(Db, Db)>, snap: Db) {
    && (forall i :: 0 <= i < |slices| ==> KeepsBound(slices[i].0, slices[i].1))
    && (slices != [] ==> slices[0].0 == snap)
  }

  ghost predicate EndsWith(slices: seq<(Db, Db)>, snap: Db, db: Db) {
    db == if slices == [] then snap else slices[|slices|-1].1
  }

  /** The slices up to place i of n; between two of them the tables may have changed. */
  ghost predicate SlicesTo(slices: seq<(Db, Db)>, snap: Db, i: nat, n: nat, db: Db) {
    SlicesFrom(slices, snap) && (slices == [] <==> i == 0) && (slices == [] || i >= n ==> EndsWith(slices, snap, db))
  }

  lemma {:induction false} SlicesGrow(slices: seq<(Db, Db)>, snap: Db, before: Db, after: Db)
    requires SlicesFrom(slices, snap) && KeepsBound(before, after) && (slices == [] ==> before == snap)
    ensures SlicesFrom(slices + [(before, after)], snap)
  {
  }

  /** The tables have evolved from the snapshot; left alone, they are resolved up to reference n. */
  ghost predicate OnTrack(env: Env, snap: Db, db: Db, n: Id, alone: bool) {
    Good(env, db) && Evolves(snap, db) && (alone ==> Resolved(env, snap, db, n))
  }

  lemma {:induction false} StartsOnTrack(env: Env, snap: Db, unbound: seq<Id>, alone: bool)
    requires Good(env, snap) && AllOpen(snap, unbound)
    ensures OnTrack(env, snap, snap, Reached(snap, unbound, 0), alone)
  {
    forall r | r in snap.refs ensures Resolution(env, snap, snap, r, Reached(snap, unbound, 0)) {
      if Open(snap.refs[r]) {
        assert r in unbound;
      }
    }
  }

  lemma {:induction false} StillOnTrack(env: Env, snap: Db, unbound: seq<Id>, k: nat, db: Db, db': Db, alone: bool)
    requires Consistent(snap) && AllOpen(snap, unbound) && k < |unbound|
    requires OnTrack(env, snap, db, Reached(snap, unbound, k), alone)
    requires Good(env, db') && Evolves(db, db')
    requires BoundOne(env, snap, db, unbound[k], db')
    ensures OnTrack(env, snap, db', Reached(snap, unbound, k + 1), alone)
  {
    EvolvesTransitive(snap, db, db');
    if alone {
      ResolvedOneMore(env, snap, unbound, k, db, db');
    }
  }

  lemma {:induction false} ResolvedOneMore(env: Env, snap: Db, unbound: seq<Id>, k: nat, db: Db, db': Db)
    requires Consistent(snap) && AllOpen(snap, unbound) && k < |unbound|
    requires Resolved(env, snap, db, Reached(snap, unbound, k))
    requires BoundOne(env, snap, db, unbound[k], db')
    ensures Resolved(env, snap, db', Reached(snap, unbound, k + 1))
  {
    var r := unbound[k];
    var n, n' := Reached(snap, unbound, k), Reached(snap, unbound, k + 1);
    assert r in unbound && n == r;
    assert Resolution(env, snap, db, r, n);
    forall q | q in snap.refs && q != r && Open(snap.refs[q]) ensures q < n <==> q < n' {
      assert q in unbound;
      var j :| 0 <= j < |unbound| && unbound[j] == q;
    }
    forall q | q in snap.refs ensures q in db'.refs && Resolution(env, snap, db', q, n') {
      assert Resolution(env, snap, db, q, n);
    }
  }

  /** Symbol s is what a call reference means by an alias: row q of its file gives the name, in a module that the
      symbol's file is. */
  ghost predicate Hit(env: Env, db: Db, q: Id, ref: Ref, s: Id) {
    && ref.row.kind == Call && ref.row.name != "" && s in db.symbols && db.symbols[s].name != ""
    && AliasRow(env, db, q, ref.file, ref.row.name, db.symbols[s].name) && ref.file in db.files
    && env.resolve(db.files[ref.file], db.refs[q].row.name, db.files) == Some(db.symbols[s].file)
  }

  /** Row q comes before row n, or is row n and the name has been dealt with. */
  predicate Seen(q: Id, n: Id, local: string, todo: set<string>) {
    q < n || (q == n && local !in todo)
  }

  ghost predicate HitBySeen(env: Env, db: Db, q: Id, ref: Ref, s: Id, n: Id, todo: set<string>) {
    Hit(env, db, q, ref, s) && Seen(q, n, ref.row.name, todo)
  }

  /** A reference that a row seen so far hits is bound to what one of them gives; every other is as it was. */
  ghost predicate ReboundRow(env: Env, db: Db, ref: Ref, ref': Ref, n: Id, todo: set<string>) {
    if exists q, s :: HitBySeen(env, db, q, ref, s, n, todo)
    then exists q, s :: HitBySeen(env, db, q, ref, s, n, todo) && ref' == BoundTo(db, ref, s)
    else ref' == ref
  }

  ghost function BoundTo(db: Db, ref: Ref, s: Id): Ref {
    if s in db.symbols then ref.(target := Some(s), targetFile := Some(db.symbols[s].file)) else ref
  }

  /** The tables after the alias updates of the rows before n, and of row n those of the names not in `todo`. */
  ghost predicate Rebound(env: Env, db: Db, db': Db, n: Id, todo: set<string>) {
    && db' == db.(refs := db'.refs) && db'.refs.Keys == db.refs.Keys
    && forall r :: r in db.refs ==> ReboundRow(env, db, db.refs[r], db'.refs[r], n, todo)
  }

  /** The local names of row q. */
  ghost function AllNames(env: Env, db: Db, q: Id): set<string> {
    if q in db.refs then env.aliases(db.refs[q].row.callExpr).Keys else {}
  }

  lemma {:induction false} SameHits(env: Env, start: Db, db: Db, n: Id, todo: set<string>, n': Id, todo': set<string>)
    requires Rebound(env, start, db, n, todo)
    requires forall q, r, s :: r in start.refs && Hit(env, start, q, start.refs[r], s) ==>
               (Seen(q, n, start.refs[r].row.name, todo) <==> Seen(q, n', start.refs[r].row.name, todo'))
    ensures Rebound(env, start, db, n', todo')
  {
    forall r | r in start.refs ensures ReboundRow(env, start, start.refs[r], db.refs[r], n', todo') {
      var ref := start.refs[r];
      assert ReboundRow(env, start, ref, db.refs[r], n, todo);
      forall q, s ensures HitBySeen(env, start, q, ref, s, n, todo) <==> HitBySeen(env, start, q, ref, s, n', todo') {
      }
    }
  }

  /** A row whose names have all been dealt with, or that leads nowhere, is done. */
  lemma {:induction false} RowDone(env: Env, start: Db, db: Db, q: Id)
    requires Rebound(env, start, db, q, {}) ||
              (Rebound(env, start, db, q, AllNames(env, start, q)) && Hitless(env, start, q))
    ensures Rebound(env, start, db, q + 1, AllNames(env, start, q + 1))
  {
    if Rebound(env, start, db, q, {}) {
      SameHits(env, start, db, q, {}, q + 1, AllNames(env, start, q + 1));
    } else {
      SameHits(env, start, db, q, AllNames(env, start, q), q + 1, AllNames(env, start, q + 1));
    }
  }

  /** What an import row says is the same at every moment. */
  lemma {:induction false} SameImport(env: Env, start: Db, db: Db, q: Id)
    requires Rebound(env, start, db, q, AllNames(env, start, q))
    ensures q in db.refs <==> q in start.refs
    ensures q in db.refs ==> db.refs[q].file == start.refs[q].file && db.refs[q].row == start.refs[q].row
    ensures !(IsImport(db, q) && CarriesAliases(db.refs[q].row)) ==> Hitless(env, start, q)
    ensures q in start.refs &&
              env.resolve(PathOf(start, start.refs[q].file), start.refs[q].row.name, start.files).None? ==>
              Hitless(env, start, q)
  {
    if q in start.refs {
      assert ReboundRow(env, start, start.refs[q], db.refs[q], q, AllNames(env, start, q));
    }
  }

  lemma {:induction false} NothingYet(env: Env, start: Db)
    ensures Rebound(env, start, start, 0, AllNames(env, start, 0))
  {
    forall r | r in start.refs
      ensures ReboundRow(env, start, start.refs[r], start.refs[r], 0, AllNames(env, start, 0))
    {
    }
  }

  lemma {:induction false} ReboundEvolves(env: Env, start: Db, db: Db)
    requires Consistent(start) && Rebound(env, start, db, start.nextRef, {})
    ensures Evolves(start, db)
  {
    forall r | r in db.refs ensures SameRow(start, db, r) {
      assert ReboundRow(env, start, start.refs[r], db.refs[r], start.nextRef, {});
    }
  }

  ghost predicate Hitless(env: Env, db: Db, q: Id) {
    forall r, s :: r in db.refs ==> !Hit(env, db, q, db.refs[r], s)
  }

  lemma {:induction false} NothingLater(env: Env, start: Db, db: Db)
    requires Consistent(start) && Rebound(env, start, db, start.nextRef, AllNames(env, start, start.nextRef))
    ensures Rebound(env, start, db, start.nextRef, {})
  {
    SameHits(env, start, db, start.nextRef, AllNames(env, start, start.nextRef), start.nextRef, {});
  }

  lemma {:induction false} PairIdle(env: Env, start: Db, db: Db, q: Id, local: string, todo: set<string>)
    requires Rebound(env, start, db, q, todo)
    requires forall r, s :: r in start.refs && start.refs[r].row.name == local ==> !Hit(env, start, q, start.refs[r], s)
    ensures Rebound(env, start, db, q, todo - {local})
  {
    SameHits(env, start, db, q, todo, q, todo - {local});
  }

  lemma {:induction false} PairBinds(env: Env, start: Db, db: Db, q: Id, local: string, s: Id, todo: set<string>)
    requires Rebound(env, start, db, q, todo) && local in todo && local != "" && q in start.refs
    requires s in start.symbols && start.symbols[s].name != ""
    requires AliasRow(env, start, q, start.refs[q].file, local, start.symbols[s].name)
    requires start.refs[q].file in start.files
    requires env.resolve(start.files[start.refs[q].file], start.refs[q].row.name, start.files) ==
              Some(start.symbols[s].file)
    ensures Rebound(env, start, Rebind(db, start.refs[q].file, local, s, start.symbols[s].file), q, todo - {local})
  {
    var file, db' := start.refs[q].file, Rebind(db, start.refs[q].file, local, s, start.symbols[s].file);
    forall r | r in start.refs ensures ReboundRow(env, start, start.refs[r], db'.refs[r], q, todo - {local}) {
      var ref := start.refs[r];
      assert ReboundRow(env, start, ref, db.refs[r], q, todo);
      if ref.file == file && ref.row.name == local && ref.row.kind == Call {
        assert HitBySeen(env, start, q, ref, s, q, todo - {local});
        assert db'.refs[r] == BoundTo(start, ref, s);
      } else {
        forall p, t
          ensures HitBySeen(env, start, p, ref, t, q, todo) <==> HitBySeen(env, start, p, ref, t, q, todo - {local})
        {
        }
      }
    }
  }

  datatype Task = IndexTask(path: Path, names: seq<string>, rows: seq<Row>) | RemoveTask(path: Path) | AliasTask

  /** The references open for binding, by id. */
  method OpenRefs(db: Db) returns (open: seq<Id>)
    requires Consistent(db)
    ensures forall r :: r in open <==> r in db.refs && Open(db.refs[r])
    ensures forall r :: r in db.refs ==>
              var ref := db.refs[r];
              r in open <==>
                  ref.target.None? && ref.row.name != "" && '.' !in ref.row.callExpr && ref.row.callExpr != "__alias__"
    ensures forall i, j :: 0 <= i < j < |open| ==> open[i] < open[j]
  {
    open := [];
    for r := 0 to db.nextRef
      invariant forall q :: q in open <==> q < r && q in db.refs && Open(db.refs[q])
      invariant forall i :: 0 <= i < |open| ==> open[i] < r
      invariant forall i, j :: 0 <= i < j < |open| ==> open[i] < open[j]
    {
      if r in db.refs && Open(db.refs[r]) {
        open := open + [r];
      }
    }
  }

  lemma {:induction false} NothingToClear(db: Db, f: Id)
    requires Emptied(db, f)
    ensures DropRefs(DropSymbols(db, f), f) == db
  {
    var db1 := DropSymbols(db, f);
    assert db1.symbols == db.symbols;
    assert forall r :: r in db.refs ==> db1.refs[r] == db.refs[r];
    assert db1.refs == db.refs;
    assert DropRefs(db1, f).refs == db.refs;
  }

  ghost predicate LastNamedBelow(db: Db, f: Id, name: string, s: Id, n: Id) {
    && s < n && s in db.symbols && db.symbols[s] == Symbol(f, name)
    && forall t :: t in db.symbols && t < n && db.symbols[t] == Symbol(f, name) ==> t <= s
  }
}
