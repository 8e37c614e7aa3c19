/**
 * The dependency graph: each listed file depends on the definer of every
 * name it leaves undefined, the global definer taking precedence over the
 * weak one; names neither index resolves are collected with the files
 * that reference them.
 */
module DependencyGraph {
  import opened ElfSymbols
  import opened SymbolIndex

  type Graph = map<FileName, set<FileName>>

  /** Where an undefined name resolves: its global definer, else its weak definer, else nowhere. */
  function Resolve(gsyms: map<SymName, FileName>, wsyms: map<SymName, FileName>, s: SymName): (r: Option<FileName>)
    ensures s in gsyms ==> r == Some(gsyms[s])
    ensures s !in gsyms && s in wsyms ==> r == Some(wsyms[s])
    ensures r == None <==> s !in gsyms && s !in wsyms
  {
    if s in gsyms then Some(gsyms[s])
    else if s in wsyms then Some(wsyms[s])
    else None
  }

  /** The files a file with undefined names `undefs` depends on. */
  function DepsOf(gsyms: map<SymName, FileName>, wsyms: map<SymName, FileName>, undefs: set<SymName>): set<FileName>
  {
    set s | s in undefs && Resolve(gsyms, wsyms, s).Some? :: Resolve(gsyms, wsyms, s).value
  }

  /** The undefined names of `undefs` that neither index resolves. */
  function UnresolvedIn(gsyms: map<SymName, FileName>, wsyms: map<SymName, FileName>, undefs: set<SymName>): set<SymName>
  {
    set s | s in undefs && Resolve(gsyms, wsyms, s) == None
  }

  /** A file depends on `q` exactly when one of its undefined names resolves to `q`. */
  lemma DepsOfSpec(gsyms: map<SymName, FileName>, wsyms: map<SymName, FileName>, undefs: set<SymName>, q: FileName)
    ensures q in DepsOf(gsyms, wsyms, undefs) <==>
              exists s :: s in undefs && Resolve(gsyms, wsyms, s) == Some(q)
  {
    if q in DepsOf(gsyms, wsyms, undefs) {
      var s :| s in undefs && Resolve(gsyms, wsyms, s).Some? && Resolve(gsyms, wsyms, s).value == q;
    }
  }

  /** A name defined globally always yields an edge to its global definer, whatever the weak index says. */
  lemma GlobalPrecedence(gsyms: map<SymName, FileName>, wsyms: map<SymName, FileName>, undefs: set<SymName>, s: SymName)
    requires s in undefs && s in gsyms
    ensures gsyms[s] in DepsOf(gsyms, wsyms, undefs)
    ensures s !in UnresolvedIn(gsyms, wsyms, undefs)
  {
    assert Resolve(gsyms, wsyms, s) == Some(gsyms[s]);
  }

  /** A name with only a weak definer yields an edge to that definer. */
  lemma WeakFallback(gsyms: map<SymName, FileName>, wsyms: map<SymName, FileName>, undefs: set<SymName>, s: SymName)
    requires s in undefs && s !in gsyms && s in wsyms
    ensures wsyms[s] in DepsOf(gsyms, wsyms, undefs)
    ensures s !in UnresolvedIn(gsyms, wsyms, undefs)
  {
    assert Resolve(gsyms, wsyms, s) == Some(wsyms[s]);
  }

  /** A name is unresolved exactly when it is in neither index. */
  lemma UnresolvedInSpec(gsyms: map<SymName, FileName>, wsyms: map<SymName, FileName>, undefs: set<SymName>, s: SymName)
    ensures s in UnresolvedIn(gsyms, wsyms, undefs) <==> s in undefs && s !in gsyms && s !in wsyms
  {
  }

  /** Every dependency is a definer recorded in one of the indexes. */
  lemma DepsAreDefiners(gsyms: map<SymName, FileName>, wsyms: map<SymName, FileName>, undefs: set<SymName>)
    ensures DepsOf(gsyms, wsyms, undefs) <= gsyms.Values + wsyms.Values
  {
    forall q | q in DepsOf(gsyms, wsyms, undefs) ensures q in gsyms.Values + wsyms.Values {
      var s :| s in undefs && Resolve(gsyms, wsyms, s).Some? && Resolve(gsyms, wsyms, s).value == q;
      if s in gsyms {
        assert gsyms[s] == q;
      } else {
        assert wsyms[s] == q;
      }
    }
  }

  /** `und` after file `f` reports the unresolved names `u`: `f` joins the referrers of each. */
  function AddReferrer(und: map<SymName, set<FileName>>, f: FileName, u: set<SymName>): map<SymName, set<FileName>>
  {
    und + map s | s in u :: (if s in und then und[s] else {}) + {f}
  }

  ghost predicate HasUndefEntries(names: seq<FileName>, usyms: map<FileName, set<SymName>>)
  {
    forall f :: f in names ==> f in usyms
  }

  /** `out` of `make_graph` after the files `names`. */
  function GraphOf(names: seq<FileName>, gsyms: map<SymName, FileName>, usyms: map<FileName, set<SymName>>,
                   wsyms: map<SymName, FileName>): Graph
    requires HasUndefEntries(names, usyms)
  {
    if names == [] then map[]
    else
      var f := names[|names| - 1];
      GraphOf(names[..|names| - 1], gsyms, usyms, wsyms)[f := DepsOf(gsyms, wsyms, usyms[f])]
  }

  /** `und` of `make_graph` after the files `names`. */
  function UnresolvedOf(names: seq<FileName>, gsyms: map<SymName, FileName>, usyms: map<FileName, set<SymName>>,
                        wsyms: map<SymName, FileName>): map<SymName, set<FileName>>
    requires HasUndefEntries(names, usyms)
  {
    if names == [] then map[]
    else
      var f := names[|names| - 1];
      AddReferrer(UnresolvedOf(names[..|names| - 1], gsyms, usyms, wsyms), f, UnresolvedIn(gsyms, wsyms, usyms[f]))
  }

  /** The graph has a node per listed file, whose successors are the definers its undefined names resolve to. */
  lemma {:induction false} GraphOfSpec(names: seq<FileName>, gsyms: map<SymName, FileName>,
                                       usyms: map<FileName, set<SymName>>, wsyms: map<SymName, FileName>, f: FileName)
    requires HasUndefEntries(names, usyms)
    ensures f in GraphOf(names, gsyms, usyms, wsyms) <==> f in names
    ensures f in names ==> GraphOf(names, gsyms, usyms, wsyms)[f] == DepsOf(gsyms, wsyms, usyms[f])
  {
    if names != [] {
      var init := names[..|names| - 1];
      GraphOfSpec(init, gsyms, usyms, wsyms, f);
      assert names == init + [names[|names| - 1]];
    }
  }

  /** `und` has a key exactly for the names some listed file leaves unresolved. */
  lemma {:induction false} UnresolvedOfKeys(names: seq<FileName>, gsyms: map<SymName, FileName>,
                                            usyms: map<FileName, set<SymName>>, wsyms: map<SymName, FileName>,
                                            s: SymName)
    requires HasUndefEntries(names, usyms)
    ensures s in UnresolvedOf(names, gsyms, usyms, wsyms) <==>
              exists g :: g in names && s in UnresolvedIn(gsyms, wsyms, usyms[g])
  {
    if names != [] {
      var n := |names| - 1;
      var init := names[..n];
      assert names == init + [names[n]];
      UnresolvedOfKeys(init, gsyms, usyms, wsyms, s);
      if exists g :: g in names && s in UnresolvedIn(gsyms, wsyms, usyms[g]) {
        var g :| g in names && s in UnresolvedIn(gsyms, wsyms, usyms[g]);
        if g != names[n] {
          assert g in init;
        }
      }
    }
  }

  /** `und[s]` holds exactly the listed files that leave `s` unresolved. */
  lemma {:induction false} UnresolvedOfReferrers(names: seq<FileName>, gsyms: map<SymName, FileName>,
                                                 usyms: map<FileName, set<SymName>>, wsyms: map<SymName, FileName>,
                                                 s: SymName, f: FileName)
    requires HasUndefEntries(names, usyms)
    requires s in UnresolvedOf(names, gsyms, usyms, wsyms)
    ensures f in UnresolvedOf(names, gsyms, usyms, wsyms)[s] <==>
              f in names && s in UnresolvedIn(gsyms, wsyms, usyms[f])
  {
    var n := |names| - 1;
    var init, last := names[..n], names[n];
    assert names == init + [last];
    if s in UnresolvedOf(init, gsyms, usyms, wsyms) {
      UnresolvedOfReferrers(init, gsyms, usyms, wsyms, s, f);
    } else {
      UnresolvedOfKeys(init, gsyms, usyms, wsyms, s);
      if f != last && f in names {
        assert f in init;
      }
    }
  }

  /** The loop over one file's undefined names in `make_graph`. */
  method FileDeps(gsyms: map<SymName, FileName>, wsyms: map<SymName, FileName>, f: FileName,
                  undefs: set<SymName>, und: map<SymName, set<FileName>>)
    returns (deps: set<FileName>, und': map<SymName, set<FileName>>)
    ensures deps == DepsOf(gsyms, wsyms, undefs)
    ensures und' == AddReferrer(und, f, UnresolvedIn(gsyms, wsyms, undefs))
  {
    deps, und' := {}, und;
    var rest := undefs;
    assert UnresolvedIn(gsyms, wsyms, undefs - rest) == {};
    AddReferrerEmpty(und, f);
    while rest != {}
      invariant rest <= undefs
      invariant deps == DepsOf(gsyms, wsyms, undefs - rest)
      invariant und' == AddReferrer(und, f, UnresolvedIn(gsyms, wsyms, undefs - rest))
      decreases |rest|
    {
      var sym :| sym in rest;
      if sym in gsyms {
        ResolvedStep(gsyms, wsyms, f, undefs, rest, und, deps, und', sym);
        deps := deps + {gsyms[sym]};
      } else if sym in wsyms {
        ResolvedStep(gsyms, wsyms, f, undefs, rest, und, deps, und', sym);
        deps := deps + {wsyms[sym]};
      } else {
        UnresolvedStep(gsyms, wsyms, f, undefs, rest, und, deps, und', sym);
        und' := und'[sym := (if sym in und' then und'[sym] else {}) + {f}];
      }
      rest := rest - {sym};
    }
    assert undefs - rest == undefs;
  }

  lemma AddReferrerEmpty(und: map<SymName, set<FileName>>, f: FileName)
    ensures AddReferrer(und, f, {}) == und
  {
    assert AddReferrer(und, f, {}).Keys == und.Keys;
    forall s | s in und ensures AddReferrer(und, f, {})[s] == und[s] {
    }
  }

  /** Reporting one more unresolved name adds `f` to its referrers, creating the entry if needed. */
  lemma AddReferrerStep(und: map<SymName, set<FileName>>, f: FileName, u: set<SymName>, x: SymName)
    ensures AddReferrer(und, f, u + {x}) ==
              var v := AddReferrer(und, f, u); v[x := (if x in v then v[x] else {}) + {f}]
  {
    var v := AddReferrer(und, f, u);
    var l, r := AddReferrer(und, f, u + {x}), v[x := (if x in v then v[x] else {}) + {f}];
    assert l.Keys == r.Keys;
    forall s | s in l ensures l[s] == r[s] {
      if s == x {
        assert l[s] == (if x in und then und[x] else {}) + {f};
      } else if s in u {
        assert l[s] == v[s];
      } else {
        assert l[s] == und[s] == v[s];
      }
    }
  }

  /** An iteration of the loop of FileDeps on a name that resolves keeps its invariant. */
  lemma ResolvedStep(gsyms: map<SymName, FileName>, wsyms: map<SymName, FileName>, f: FileName,
                     undefs: set<SymName>, rest: set<SymName>, und: map<SymName, set<FileName>>,
                     deps: set<FileName>, u: map<SymName, set<FileName>>, x: SymName)
    requires x in rest && rest <= undefs
    requires Resolve(gsyms, wsyms, x).Some?
    requires deps == DepsOf(gsyms, wsyms, undefs - rest)
    requires u == AddReferrer(und, f, UnresolvedIn(gsyms, wsyms, undefs - rest))
    ensures DepsOf(gsyms, wsyms, undefs - (rest - {x})) == deps + {Resolve(gsyms, wsyms, x).value}
    ensures AddReferrer(und, f, UnresolvedIn(gsyms, wsyms, undefs - (rest - {x}))) == u
  {
    var done := undefs - rest;
    assert undefs - (rest - {x}) == done + {x};
    assert DepsOf(gsyms, wsyms, done + {x}) == deps + {Resolve(gsyms, wsyms, x).value};
    assert UnresolvedIn(gsyms, wsyms, done + {x}) == UnresolvedIn(gsyms, wsyms, done);
  }

  /** An iteration of the loop of FileDeps on a name that does not resolve keeps its invariant. */
  lemma UnresolvedStep(gsyms: map<SymName, FileName>, wsyms: map<SymName, FileName>, f: FileName,
                       undefs: set<SymName>, rest: set<SymName>, und: map<SymName, set<FileName>>,
                       deps: set<FileName>, u: map<SymName, set<FileName>>, x: SymName)
    requires x in rest && rest <= undefs
    requires x !in gsyms && x !in wsyms
    requires deps == DepsOf(gsyms, wsyms, undefs - rest)
    requires u == AddReferrer(und, f, UnresolvedIn(gsyms, wsyms, undefs - rest))
    ensures DepsOf(gsyms, wsyms, undefs - (rest - {x})) == deps
    ensures AddReferrer(und, f, UnresolvedIn(gsyms, wsyms, undefs - (rest - {x}))) ==
              u[x := (if x in u then u[x] else {}) + {f}]
  {
    var done := undefs - rest;
    assert undefs - (rest - {x}) == done + {x};
    assert DepsOf(gsyms, wsyms, done + {x}) == deps;
    assert UnresolvedIn(gsyms, wsyms, done + {x}) == UnresolvedIn(gsyms, wsyms, done) + {x};
    AddReferrerStep(und, f, UnresolvedIn(gsyms, wsyms, done), x);
  }

  /**
   * `make_graph`: for every listed file, the files its undefined names
   * resolve to, and, for every unresolved name, the files referencing it.
   */
  method MakeGraph(names: seq<FileName>, gsyms: map<SymName, FileName>, usyms: map<FileName, set<SymName>>,
                   wsyms: map<SymName, FileName>)
    returns (graph: Graph, und: map<SymName, set<FileName>>)
    requires HasUndefEntries(names, usyms)
    ensures graph == GraphOf(names, gsyms, usyms, wsyms)
    ensures und == UnresolvedOf(names, gsyms, usyms, wsyms)
  {
    graph, und := map[], map[];
    for k := 0 to |names|
      invariant HasUndefEntries(names[..k], usyms)
      invariant graph == GraphOf(names[..k], gsyms, usyms, wsyms)
      invariant und == UnresolvedOf(names[..k], gsyms, usyms, wsyms)
    {
      var f := names[k];
      assert names[..k + 1][..k] == names[..k] && names[..k + 1][k] == f;
      var deps;
      deps, und := FileDeps(gsyms, wsyms, f, usyms[f], und);
      graph := graph[f := deps];
    }
    assert names[..|names|] == names;
  }
}
