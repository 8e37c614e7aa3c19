/**
 * The cross-file symbol index: the symbol sets of every object of a
 * directory listing, folded in listing order into a global-definer map
 * (first definer wins), a weak-definer map (names defined weakly by more
 * than one object are dropped) and each object's undefined names.
 */
module SymbolIndex {
  import opened BinaryReader
  import opened ElfSymbols

  type FileName = string

  /** One directory entry: its name and the bytes of the file. */
  datatype ObjectFile = ObjectFile(name: FileName, bytes: Bytes)

  /** One directory entry with the symbol sets `read_syms` finds in it. */
  datatype Listed = Listed(name: FileName, syms: Symtab)

  function Listing(dir: seq<ObjectFile>): (ls: seq<Listed>)
    ensures |ls| == |dir|
    ensures forall i :: 0 <= i < |dir| ==> ls[i] == Listed(dir[i].name, ObjectSymtab(dir[i].bytes))
  {
    seq(|dir|, i requires 0 <= i < |dir| => Listed(dir[i].name, ObjectSymtab(dir[i].bytes)))
  }

  /** The names of the listed files. */
  function Names(ls: seq<Listed>): set<FileName>
  {
    set i | 0 <= i < |ls| :: ls[i].name
  }

  datatype Binding = Global | Weak

  function Defined(t: Symtab, b: Binding): set<SymName>
  {
    if b == Global then t.globals else t.weaks
  }

  /** `m` after file `f` offers each name of `s`: names already present keep their definer. */
  function FirstWriter(m: map<SymName, FileName>, s: set<SymName>, f: FileName): map<SymName, FileName>
  {
    m + map x | x in s && x !in m :: f
  }

  /** The offered names are added; names already present keep their definer, the others get `f`. */
  lemma FirstWriterSpec(m: map<SymName, FileName>, s: set<SymName>, f: FileName, x: SymName)
    ensures x in FirstWriter(m, s, f) <==> x in m || x in s
    ensures x in FirstWriter(m, s, f) ==> FirstWriter(m, s, f)[x] == if x in m then m[x] else f
  {
  }

  /** Offering one more name not offered before. */
  lemma FirstWriterStep(m: map<SymName, FileName>, d: set<SymName>, x: SymName, f: FileName)
    requires x !in d
    ensures x in FirstWriter(m, d, f) <==> x in m
    ensures FirstWriter(m, d + {x}, f) ==
              if x in m then FirstWriter(m, d, f) else FirstWriter(m, d, f)[x := f]
  {
  }

  /** The map built by offering the `b`-defined names of each file, in listing order. */
  function FirstDefiners(ls: seq<Listed>, b: Binding): map<SymName, FileName>
  {
    if ls == [] then map[]
    else
      var n := |ls| - 1;
      FirstWriter(FirstDefiners(ls[..n], b), Defined(ls[n].syms, b), ls[n].name)
  }

  /** `out_globl` as `read_syms_archive` returns it. */
  function GlobalIndex(ls: seq<Listed>): map<SymName, FileName>
  {
    FirstDefiners(ls, Global)
  }

  /** `dups`: names that a file defines weakly after an earlier file did. */
  function WeakDuplicates(ls: seq<Listed>): set<SymName>
  {
    if ls == [] then {}
    else
      var n := |ls| - 1;
      WeakDuplicates(ls[..n]) + ls[n].syms.weaks * FirstDefiners(ls[..n], Weak).Keys
  }

  /** `out_weak` as `read_syms_archive` returns it: the weak first definers without the duplicates. */
  function WeakIndex(ls: seq<Listed>): map<SymName, FileName>
  {
    FirstDefiners(ls, Weak) - WeakDuplicates(ls)
  }

  /** `out_undef` as `read_syms_archive` returns it. */
  function UndefIndex(ls: seq<Listed>): map<FileName, set<SymName>>
  {
    if ls == [] then map[]
    else
      var n := |ls| - 1;
      UndefIndex(ls[..n])[ls[n].name := ls[n].syms.undefs]
  }

  /** The multiple-definition reports file `f` produces for its global names `s`, given the index `g` before it. */
  function Redefined(f: FileName, s: set<SymName>, g: map<SymName, FileName>): set<(FileName, SymName)>
  {
    set x | x in s && x in g :: (f, x)
  }

  /** Every multiple-definition report, with its multiplicity. */
  function Diagnostics(ls: seq<Listed>): multiset<(FileName, SymName)>
  {
    if ls == [] then multiset{}
    else
      var n := |ls| - 1;
      Diagnostics(ls[..n]) + multiset(Redefined(ls[n].name, ls[n].syms.globals, GlobalIndex(ls[..n])))
  }

  ghost predicate DefinedAt(ls: seq<Listed>, b: Binding, i: int, s: SymName)
  {
    0 <= i < |ls| && s in Defined(ls[i].syms, b)
  }

  /** A name is in the map exactly when some listed file defines it. */
  lemma {:induction false} FirstDefinersKeys(ls: seq<Listed>, b: Binding, s: SymName)
    ensures s in FirstDefiners(ls, b) <==> exists i :: DefinedAt(ls, b, i, s)
  {
    if ls != [] {
      var n := |ls| - 1;
      FirstDefinersKeys(ls[..n], b, s);
      if s in FirstDefiners(ls[..n], b) {
        var i :| DefinedAt(ls[..n], b, i, s);
        assert DefinedAt(ls, b, i, s);
      } else if s in Defined(ls[n].syms, b) {
        assert DefinedAt(ls, b, n, s);
      } else {
        forall i | DefinedAt(ls, b, i, s) ensures false {
          assert i < n && DefinedAt(ls[..n], b, i, s);
        }
      }
    }
  }

  /** The first file in listing order that defines a name is the one the map records. */
  lemma {:induction false} FirstDefinerWins(ls: seq<Listed>, b: Binding, i: nat, s: SymName)
    requires DefinedAt(ls, b, i, s)
    requires forall j :: 0 <= j < i ==> !DefinedAt(ls, b, j, s)
    ensures s in FirstDefiners(ls, b) && FirstDefiners(ls, b)[s] == ls[i].name
  {
    var n := |ls| - 1;
    if i < n {
      assert DefinedAt(ls[..n], b, i, s);
      forall j | 0 <= j < i ensures !DefinedAt(ls[..n], b, j, s) {
        assert !DefinedAt(ls, b, j, s);
      }
      FirstDefinerWins(ls[..n], b, i, s);
    } else {
      FirstDefinersKeys(ls[..n], b, s);
      if s in FirstDefiners(ls[..n], b) {
        var j :| DefinedAt(ls[..n], b, j, s);
        assert DefinedAt(ls, b, j, s);
      }
    }
  }

  /** `out_globl[s]` is the first listed file whose GLOBAL set holds `s`. */
  lemma GlobalIndexFirstDefiner(ls: seq<Listed>, i: nat, s: SymName)
    requires 0 <= i < |ls| && s in ls[i].syms.globals
    requires forall j :: 0 <= j < i ==> s !in ls[j].syms.globals
    ensures s in GlobalIndex(ls) && GlobalIndex(ls)[s] == ls[i].name
  {
    assert DefinedAt(ls, Global, i, s);
    forall j | 0 <= j < i ensures !DefinedAt(ls, Global, j, s) {
    }
    FirstDefinerWins(ls, Global, i, s);
  }

  /** `out_globl` holds exactly the names some listed file defines globally. */
  lemma GlobalIndexKeys(ls: seq<Listed>, s: SymName)
    ensures s in GlobalIndex(ls) <==> exists i :: 0 <= i < |ls| && s in ls[i].syms.globals
  {
    FirstDefinersKeys(ls, Global, s);
    if s in GlobalIndex(ls) {
      var i :| DefinedAt(ls, Global, i, s);
      assert 0 <= i < |ls| && s in ls[i].syms.globals;
    }
    if exists i :: 0 <= i < |ls| && s in ls[i].syms.globals {
      var i :| 0 <= i < |ls| && s in ls[i].syms.globals;
      assert DefinedAt(ls, Global, i, s);
    }
  }

  /** Two different listed files define `s` weakly. */
  ghost predicate WeakTwice(ls: seq<Listed>, s: SymName)
  {
    exists i, j :: 0 <= i < j < |ls| && s in ls[i].syms.weaks && s in ls[j].syms.weaks
  }

  lemma WeakTwiceSplit(ls: seq<Listed>, s: SymName)
    requires ls != []
    ensures WeakTwice(ls, s) <==>
              WeakTwice(ls[..|ls| - 1], s) ||
              (s in ls[|ls| - 1].syms.weaks && s in FirstDefiners(ls[..|ls| - 1], Weak))
  {
    var n := |ls| - 1;
    if WeakTwice(ls, s) {
      WeakTwiceInit(ls, s);
    }
    if WeakTwice(ls[..n], s) || (s in ls[n].syms.weaks && s in FirstDefiners(ls[..n], Weak)) {
      WeakTwiceExtend(ls, s);
    }
  }

  /** Two weak definers of `s` in `ls`: both in the prefix, or an earlier one and the last file. */
  lemma WeakTwiceInit(ls: seq<Listed>, s: SymName)
    requires ls != [] && WeakTwice(ls, s)
    ensures WeakTwice(ls[..|ls| - 1], s) ||
            (s in ls[|ls| - 1].syms.weaks && s in FirstDefiners(ls[..|ls| - 1], Weak))
  {
    var n := |ls| - 1;
    var init := ls[..n];
    FirstDefinersKeys(init, Weak, s);
    var i, j :| 0 <= i < j < |ls| && s in ls[i].syms.weaks && s in ls[j].syms.weaks;
    if j < n {
      assert s in init[i].syms.weaks && s in init[j].syms.weaks;
    } else {
      assert DefinedAt(init, Weak, i, s);
    }
  }

  /** Two weak definers in the prefix, or one there and the last file, are two in `ls`. */
  lemma WeakTwiceExtend(ls: seq<Listed>, s: SymName)
    requires ls != []
    requires WeakTwice(ls[..|ls| - 1], s) ||
             (s in ls[|ls| - 1].syms.weaks && s in FirstDefiners(ls[..|ls| - 1], Weak))
    ensures WeakTwice(ls, s)
  {
    var n := |ls| - 1;
    var init := ls[..n];
    FirstDefinersKeys(init, Weak, s);
    if WeakTwice(init, s) {
      var i, j :| 0 <= i < j < |init| && s in init[i].syms.weaks && s in init[j].syms.weaks;
      assert s in ls[i].syms.weaks && s in ls[j].syms.weaks;
    } else {
      var i :| DefinedAt(init, Weak, i, s);
      assert s in ls[i].syms.weaks && s in ls[n].syms.weaks;
    }
  }

  /** `dups` holds exactly the names that two different listed files define weakly. */
  lemma {:induction false} WeakDuplicatesSpec(ls: seq<Listed>, s: SymName)
    ensures s in WeakDuplicates(ls) <==> WeakTwice(ls, s)
  {
    if ls != [] {
      var init := ls[..|ls| - 1];
      WeakDuplicatesSpec(init, s);
      WeakTwiceSplit(ls, s);
    }
  }

  /** Every name in `dups` is in the weak map, so the `del` can never miss. */
  lemma {:induction false} DuplicatesAreIndexed(ls: seq<Listed>)
    ensures WeakDuplicates(ls) <= FirstDefiners(ls, Weak).Keys
  {
    if ls != [] {
      DuplicatesAreIndexed(ls[..|ls| - 1]);
    }
  }

  /** A name defined weakly by exactly one listed file maps to that file. */
  lemma WeakIndexUnique(ls: seq<Listed>, i: nat, s: SymName)
    requires 0 <= i < |ls| && s in ls[i].syms.weaks
    requires forall j :: 0 <= j < |ls| && j != i ==> s !in ls[j].syms.weaks
    ensures s in WeakIndex(ls) && WeakIndex(ls)[s] == ls[i].name
  {
    assert DefinedAt(ls, Weak, i, s);
    forall j | 0 <= j < i ensures !DefinedAt(ls, Weak, j, s) {
    }
    FirstDefinerWins(ls, Weak, i, s);
    WeakDuplicatesSpec(ls, s);
  }

  /** A name defined weakly by two listed files is not in the weak map. */
  lemma WeakIndexAmbiguous(ls: seq<Listed>, i: nat, j: nat, s: SymName)
    requires i < j < |ls| && s in ls[i].syms.weaks && s in ls[j].syms.weaks
    ensures s !in WeakIndex(ls)
  {
    WeakDuplicatesSpec(ls, s);
  }

  /** Every name in the weak map is defined weakly by some listed file. */
  lemma WeakIndexDefined(ls: seq<Listed>, s: SymName)
    requires s in WeakIndex(ls)
    ensures exists i :: 0 <= i < |ls| && s in ls[i].syms.weaks
  {
    FirstDefinersKeys(ls, Weak, s);
    var i :| DefinedAt(ls, Weak, i, s);
  }

  /** Every definer the maps record is a listed file. */
  lemma {:induction false} DefinersAreListed(ls: seq<Listed>, b: Binding)
    ensures FirstDefiners(ls, b).Values <= Names(ls)
  {
    if ls != [] {
      var n := |ls| - 1;
      DefinersAreListed(ls[..n], b);
      forall i | 0 <= i < n ensures ls[..n][i].name in Names(ls) {
        assert ls[..n][i].name == ls[i].name;
      }
      assert Names(ls[..n]) <= Names(ls);
      assert ls[n].name in Names(ls);
    }
  }

  /** `out_undef` has an entry for exactly the listed files. */
  lemma {:induction false} UndefIndexKeys(ls: seq<Listed>)
    ensures UndefIndex(ls).Keys == Names(ls)
  {
    if ls != [] {
      var n := |ls| - 1;
      UndefIndexKeys(ls[..n]);
      forall f ensures f in Names(ls) <==> f in Names(ls[..n]) || f == ls[n].name {
        if f in Names(ls) {
          var i :| 0 <= i < |ls| && ls[i].name == f;
          if i < n {
            assert ls[..n][i].name == f;
          }
        }
        if f in Names(ls[..n]) {
          var i :| 0 <= i < n && ls[..n][i].name == f;
          assert ls[i].name == f;
        }
      }
    }
  }

  /** `out_undef[f]` is the UNDEF set of the last listed file called `f`. */
  lemma {:induction false} UndefIndexLast(ls: seq<Listed>, i: nat)
    requires i < |ls|
    requires forall j :: i < j < |ls| ==> ls[j].name != ls[i].name
    ensures ls[i].name in UndefIndex(ls) && UndefIndex(ls)[ls[i].name] == ls[i].syms.undefs
  {
    var n := |ls| - 1;
    if i < n {
      UndefIndexLast(ls[..n], i);
    }
  }

  lemma MultisetOfAddedElement<T>(a: set<T>, x: T)
    requires x !in a
    ensures multiset(a + {x}) == multiset(a) + multiset{x}
  {
  }

  /** File `i` defines `s` globally after an earlier listed file did. */
  ghost predicate Redefines(ls: seq<Listed>, i: int, s: SymName)
  {
    0 <= i < |ls| && s in ls[i].syms.globals && exists j :: 0 <= j < i && s in ls[j].syms.globals
  }

  /** Some file called `f` redefines `s`. */
  ghost predicate Reported(ls: seq<Listed>, f: FileName, s: SymName)
  {
    exists i :: Redefines(ls, i, s) && ls[i].name == f
  }

  lemma ReportedSplit(ls: seq<Listed>, f: FileName, s: SymName)
    requires ls != []
    ensures Reported(ls, f, s) <==>
              Reported(ls[..|ls| - 1], f, s) || (ls[|ls| - 1].name == f && Redefines(ls, |ls| - 1, s))
  {
    var n := |ls| - 1;
    var init := ls[..n];
    forall i | 0 <= i < n ensures Redefines(ls, i, s) <==> Redefines(init, i, s) {
      if Redefines(ls, i, s) {
        var j :| 0 <= j < i && s in ls[j].syms.globals;
        assert s in init[j].syms.globals;
      }
      if Redefines(init, i, s) {
        var j :| 0 <= j < i && s in init[j].syms.globals;
        assert s in ls[j].syms.globals;
      }
    }
    if Reported(ls, f, s) {
      var i :| Redefines(ls, i, s) && ls[i].name == f;
      if i < n {
        assert Redefines(init, i, s) && init[i].name == f;
      }
    }
    if Reported(init, f, s) {
      var i :| Redefines(init, i, s) && init[i].name == f;
      assert Redefines(ls, i, s) && ls[i].name == f;
    }
  }

  /**
   * With distinct file names, file `f` reports `s` once when `f` defines
   * `s` globally after an earlier file did, and never otherwise.
   */
  lemma {:induction false} DiagnosticsCount(ls: seq<Listed>, f: FileName, s: SymName)
    requires forall i, j :: 0 <= i < j < |ls| ==> ls[i].name != ls[j].name
    ensures Diagnostics(ls)[(f, s)] == if Reported(ls, f, s) then 1 else 0
  {
    if ls != [] {
      var n := |ls| - 1;
      var init := ls[..n];
      DiagnosticsCount(init, f, s);
      ReportedSplit(ls, f, s);
      GlobalIndexKeys(init, s);
      var r := Redefined(ls[n].name, ls[n].syms.globals, GlobalIndex(init));
      assert multiset(r)[(f, s)] == if (f, s) in r then 1 else 0;
      if f == ls[n].name {
        forall i | 0 <= i < n ensures init[i].name != f {
          assert init[i] == ls[i];
        }
        assert !Reported(init, f, s);
        if Redefines(ls, n, s) {
          var j :| 0 <= j < n && s in ls[j].syms.globals;
          assert s in init[j].syms.globals;
        }
        if (f, s) in r {
          var j :| 0 <= j < n && s in init[j].syms.globals;
          assert s in ls[j].syms.globals;
        }
      }
    }
  }

  lemma RedefinedStep(f: FileName, d: set<SymName>, g: map<SymName, FileName>, x: SymName)
    requires x !in d
    ensures multiset(Redefined(f, d + {x}, g)) ==
              multiset(Redefined(f, d, g)) + if x in g then multiset{(f, x)} else multiset{}
  {
    if x in g {
      assert Redefined(f, d + {x}, g) == Redefined(f, d, g) + {(f, x)};
      MultisetOfAddedElement(Redefined(f, d, g), (f, x));
    } else {
      assert Redefined(f, d + {x}, g) == Redefined(f, d, g);
    }
  }

  /** Taking `x` out of the names still to visit adds it to the names visited. */
  lemma Taken(names: set<SymName>, rest: set<SymName>, x: SymName)
    requires x in rest && rest <= names
    ensures x !in names - rest && names - (rest - {x}) == (names - rest) + {x}
  {
  }

  /** One iteration of the GLOBAL loop keeps its invariant. */
  lemma AddGlobalStep(globl: map<SymName, FileName>, diags: seq<(FileName, SymName)>, f: FileName,
                      done: set<SymName>, g: map<SymName, FileName>, d: seq<(FileName, SymName)>, x: SymName)
    requires x !in done
    requires g == FirstWriter(globl, done, f)
    requires multiset(d) == multiset(diags) + multiset(Redefined(f, done, globl))
    ensures x in g <==> x in globl
    ensures (if x in g then g else g[x := f]) == FirstWriter(globl, done + {x}, f)
    ensures multiset(if x in g then d + [(f, x)] else d) ==
              multiset(diags) + multiset(Redefined(f, done + {x}, globl))
  {
    FirstWriterStep(globl, done, x, f);
    RedefinedStep(f, done, globl, x);
  }

  /** The loop over one file's GLOBAL names in `read_syms_archive`. */
  method AddGlobals(globl: map<SymName, FileName>, diags: seq<(FileName, SymName)>, f: FileName, names: set<SymName>)
    returns (globl': map<SymName, FileName>, diags': seq<(FileName, SymName)>)
    ensures globl' == FirstWriter(globl, names, f)
    ensures multiset(diags') == multiset(diags) + multiset(Redefined(f, names, globl))
  {
    globl', diags' := globl, diags;
    var rest := names;
    while rest != {}
      invariant rest <= names
      invariant globl' == FirstWriter(globl, names - rest, f)
      invariant multiset(diags') == multiset(diags) + multiset(Redefined(f, names - rest, globl))
      decreases |rest|
    {
      var sym :| sym in rest;
      Taken(names, rest, sym);
      AddGlobalStep(globl, diags, f, names - rest, globl', diags', sym);
      if sym in globl' {
        diags' := diags' + [(f, sym)];
      } else {
        globl' := globl'[sym := f];
      }
      rest := rest - {sym};
    }
    assert names - rest == names;
  }

  /** One iteration of the WEAK loop keeps its invariant. */
  lemma AddWeakStep(weak: map<SymName, FileName>, dups: set<SymName>, f: FileName,
                    done: set<SymName>, w: map<SymName, FileName>, d: set<SymName>, x: SymName)
    requires x !in done
    requires w == FirstWriter(weak, done, f)
    requires d == dups + done * weak.Keys
    ensures x in w <==> x in weak
    ensures (if x in w then w else w[x := f]) == FirstWriter(weak, done + {x}, f)
    ensures (if x in w then d + {x} else d) == dups + (done + {x}) * weak.Keys
  {
    FirstWriterStep(weak, done, x, f);
  }

  /** The loop over one file's WEAK names in `read_syms_archive`. */
  method AddWeaks(weak: map<SymName, FileName>, dups: set<SymName>, f: FileName, names: set<SymName>)
    returns (weak': map<SymName, FileName>, dups': set<SymName>)
    ensures weak' == FirstWriter(weak, names, f)
    ensures dups' == dups + names * weak.Keys
  {
    weak', dups' := weak, dups;
    var rest := names;
    while rest != {}
      invariant rest <= names
      invariant weak' == FirstWriter(weak, names - rest, f)
      invariant dups' == dups + (names - rest) * weak.Keys
      decreases |rest|
    {
      var sym :| sym in rest;
      Taken(names, rest, sym);
      AddWeakStep(weak, dups, f, names - rest, weak', dups', sym);
      if sym !in weak' {
        weak' := weak'[sym := f];
      } else {
        dups' := dups' + {sym};
      }
      rest := rest - {sym};
    }
    assert names - rest == names;
  }

  /** `del out_weak[sym]`, which fails unless the key is present. */
  function Delete(m: map<SymName, FileName>, x: SymName): (r: map<SymName, FileName>)
    requires x in m
    ensures r.Keys == m.Keys - {x}
    ensures forall y :: y in r ==> r[y] == m[y]
  {
    m - {x}
  }

  /** Deleting one more name of `dups`. */
  lemma Deleted(weak: map<SymName, FileName>, dups: set<SymName>, rest: set<SymName>, x: SymName)
    requires x in rest && rest <= dups && dups <= weak.Keys
    ensures x in weak - (dups - rest)
    ensures weak - (dups - (rest - {x})) == (weak - (dups - rest)) - {x}
  {
  }

  /** The final loop of `read_syms_archive`, deleting every duplicate weak name. */
  method RemoveDuplicates(weak: map<SymName, FileName>, dups: set<SymName>) returns (weak': map<SymName, FileName>)
    requires dups <= weak.Keys
    ensures weak' == weak - dups
  {
    weak' := weak;
    var rest := dups;
    while rest != {}
      invariant rest <= dups
      invariant weak' == weak - (dups - rest)
      decreases |rest|
    {
      var sym :| sym in rest;
      Deleted(weak, dups, rest, sym);
      weak' := Delete(weak', sym);
      rest := rest - {sym};
    }
    assert dups - rest == dups;
  }

  /** Each of the folds, one more file in. */
  lemma IndexStep(ls: seq<Listed>, k: nat)
    requires k < |ls|
    ensures FirstDefiners(ls[..k + 1], Global) == FirstWriter(FirstDefiners(ls[..k], Global), ls[k].syms.globals, ls[k].name)
    ensures FirstDefiners(ls[..k + 1], Weak) == FirstWriter(FirstDefiners(ls[..k], Weak), ls[k].syms.weaks, ls[k].name)
    ensures WeakDuplicates(ls[..k + 1]) == WeakDuplicates(ls[..k]) + ls[k].syms.weaks * FirstDefiners(ls[..k], Weak).Keys
    ensures UndefIndex(ls[..k + 1]) == UndefIndex(ls[..k])[ls[k].name := ls[k].syms.undefs]
    ensures Diagnostics(ls[..k + 1]) ==
              Diagnostics(ls[..k]) + multiset(Redefined(ls[k].name, ls[k].syms.globals, GlobalIndex(ls[..k])))
  {
    assert ls[..k + 1][..k] == ls[..k];
  }

  /** The body of the loop of `read_syms_archive` over the listing, for file `f` with symbol sets `syms`. */
  method AddObject(globl: map<SymName, FileName>, undef: map<FileName, set<SymName>>,
                   weak: map<SymName, FileName>, dups: set<SymName>, diags: seq<(FileName, SymName)>,
                   f: FileName, syms: Symtab)
    returns (globl': map<SymName, FileName>, undef': map<FileName, set<SymName>>,
             weak': map<SymName, FileName>, dups': set<SymName>, diags': seq<(FileName, SymName)>)
    ensures globl' == FirstWriter(globl, syms.globals, f)
    ensures multiset(diags') == multiset(diags) + multiset(Redefined(f, syms.globals, globl))
    ensures weak' == FirstWriter(weak, syms.weaks, f)
    ensures dups' == dups + syms.weaks * weak.Keys
    ensures undef' == undef[f := syms.undefs]
  {
    globl', diags' := AddGlobals(globl, diags, f, syms.globals);
    weak', dups' := AddWeaks(weak, dups, f, syms.weaks);
    undef' := undef[f := syms.undefs];
  }

  /**
   * `read_syms_archive`: read every listed object in order and fold its
   * sets into the three maps; return also the multiple-definition reports.
   */
  method IndexArchive(dir: seq<ObjectFile>)
    returns (globl: map<SymName, FileName>, undef: map<FileName, set<SymName>>,
             weak: map<SymName, FileName>, diags: seq<(FileName, SymName)>)
    ensures globl == GlobalIndex(Listing(dir))
    ensures undef == UndefIndex(Listing(dir))
    ensures weak == WeakIndex(Listing(dir))
    ensures multiset(diags) == Diagnostics(Listing(dir))
  {
    ghost var ls := Listing(dir);
    var dups: set<SymName> := {};
    globl, undef, weak, diags := map[], map[], map[], [];
    assert ls[..0] == [];
    for k := 0 to |dir|
      invariant Indexed(ls[..k], globl, undef, weak, dups, diags)
    {
      var syms := ReadSyms(dir[k].bytes);
      assert ls[k] == Listed(dir[k].name, syms);
      ghost var globl0, undef0, weak0, dups0, diags0 := globl, undef, weak, dups, diags;
      globl, undef, weak, dups, diags := AddObject(globl, undef, weak, dups, diags, dir[k].name, syms);
      IndexedStep(ls, k, globl0, undef0, weak0, dups0, diags0, globl, undef, weak, dups, diags);
    }
    assert ls[..|dir|] == ls;
    DuplicatesAreIndexed(ls);
    weak := RemoveDuplicates(weak, dups);
  }

  /** The state of `read_syms_archive` after the files `ls`, before the duplicates are removed. */
  ghost predicate Indexed(ls: seq<Listed>, globl: map<SymName, FileName>, undef: map<FileName, set<SymName>>,
                          weak: map<SymName, FileName>, dups: set<SymName>, diags: seq<(FileName, SymName)>)
  {
    globl == FirstDefiners(ls, Global) && weak == FirstDefiners(ls, Weak) &&
    dups == WeakDuplicates(ls) && undef == UndefIndex(ls) && multiset(diags) == Diagnostics(ls)
  }

  lemma IndexedStep(ls: seq<Listed>, k: nat,
                    globl: map<SymName, FileName>, undef: map<FileName, set<SymName>>,
                    weak: map<SymName, FileName>, dups: set<SymName>, diags: seq<(FileName, SymName)>,
                    globl': map<SymName, FileName>, undef': map<FileName, set<SymName>>,
                    weak': map<SymName, FileName>, dups': set<SymName>, diags': seq<(FileName, SymName)>)
    requires k < |ls|
    requires Indexed(ls[..k], globl, undef, weak, dups, diags)
    requires globl' == FirstWriter(globl, ls[k].syms.globals, ls[k].name)
    requires multiset(diags') == multiset(diags) + multiset(Redefined(ls[k].name, ls[k].syms.globals, globl))
    requires weak' == FirstWriter(weak, ls[k].syms.weaks, ls[k].name)
    requires dups' == dups + ls[k].syms.weaks * weak.Keys
    requires undef' == undef[ls[k].name := ls[k].syms.undefs]
    ensures Indexed(ls[..k + 1], globl', undef', weak', dups', diags')
  {
    IndexStep(ls, k);
  }
}
