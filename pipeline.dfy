/**
 * How the stages fit together when they run on one directory: the index
 * built by `read_syms_archive` has an undefined-name entry for every file
 * `make_graph` lists, the graph it then builds only points at listed files,
 * and so a drawing started at any listed file never looks up a missing
 * graph entry.
 */
module Pipeline {
  import opened ElfSymbols
  import opened SymbolIndex
  import opened DependencyGraph
  import opened Traversal

  /** The file names in listing order, as `make_graph` visits them. */
  function NameSeq(ls: seq<Listed>): (names: seq<FileName>)
    ensures |names| == |ls|
    ensures forall i :: 0 <= i < |ls| ==> names[i] == ls[i].name
  {
    seq(|ls|, i requires 0 <= i < |ls| => ls[i].name)
  }

  lemma NameSeqNames(ls: seq<Listed>, f: FileName)
    ensures f in NameSeq(ls) <==> f in Names(ls)
  {
    var names := NameSeq(ls);
    if f in names {
      var i :| 0 <= i < |names| && names[i] == f;
      assert ls[i].name == f;
    }
    if f in Names(ls) {
      var i :| 0 <= i < |ls| && ls[i].name == f;
      assert names[i] == f;
    }
  }

  /** `usyms[f]` in `make_graph` finds an entry for every listed file. */
  lemma UndefEntriesFound(ls: seq<Listed>)
    ensures HasUndefEntries(NameSeq(ls), UndefIndex(ls))
  {
    UndefIndexKeys(ls);
    forall f | f in NameSeq(ls)
      ensures f in UndefIndex(ls)
    {
      NameSeqNames(ls, f);
    }
  }

  /** The graph `make_graph` builds from the index of the same listing. */
  function ArchiveGraph(ls: seq<Listed>): Graph
  {
    UndefEntriesFound(ls);
    GraphOf(NameSeq(ls), GlobalIndex(ls), UndefIndex(ls), WeakIndex(ls))
  }

  /** It has a node for exactly the listed files. */
  lemma ArchiveGraphKeys(ls: seq<Listed>, f: FileName)
    ensures f in ArchiveGraph(ls) <==> f in Names(ls)
  {
    UndefEntriesFound(ls);
    GraphOfSpec(NameSeq(ls), GlobalIndex(ls), UndefIndex(ls), WeakIndex(ls), f);
    NameSeqNames(ls, f);
  }

  /** A listed file depends on `d` exactly when one of its undefined names resolves to `d`. */
  lemma ArchiveEdge(ls: seq<Listed>, f: FileName, d: FileName)
    requires f in Names(ls)
    ensures f in ArchiveGraph(ls) && f in UndefIndex(ls)
    ensures d in ArchiveGraph(ls)[f] <==>
              exists s :: s in UndefIndex(ls)[f] && Resolve(GlobalIndex(ls), WeakIndex(ls), s) == Some(d)
  {
    UndefEntriesFound(ls);
    ArchiveGraphKeys(ls, f);
    NameSeqNames(ls, f);
    GraphOfSpec(NameSeq(ls), GlobalIndex(ls), UndefIndex(ls), WeakIndex(ls), f);
    DepsOfSpec(GlobalIndex(ls), WeakIndex(ls), UndefIndex(ls)[f], d);
  }

  /** Every dependency is a listed file, so every successor has a node of its own. */
  lemma ArchiveGraphClosed(ls: seq<Listed>, f: FileName, d: FileName)
    requires f in ArchiveGraph(ls) && d in ArchiveGraph(ls)[f]
    ensures d in ArchiveGraph(ls)
  {
    var gsyms, usyms, wsyms := GlobalIndex(ls), UndefIndex(ls), WeakIndex(ls);
    ArchiveGraphKeys(ls, f);
    NameSeqNames(ls, f);
    UndefEntriesFound(ls);
    GraphOfSpec(NameSeq(ls), gsyms, usyms, wsyms, f);
    DepsAreDefiners(gsyms, wsyms, usyms[f]);
    DefinersAreListed(ls, Global);
    DefinersAreListed(ls, Weak);
    assert wsyms.Values <= FirstDefiners(ls, Weak).Values;
    ArchiveGraphKeys(ls, d);
  }

  /** Drawing from any listed file, for instance the definer of `__libc_start_main`, never misses a graph entry. */
  lemma DrawingFindsEntries(ls: seq<Listed>, start: FileName)
    requires start in Names(ls)
    ensures ReachableAreKeys(ArchiveGraph(ls), start)
  {
    var g := ArchiveGraph(ls);
    forall v, w | v in g.Keys && v in g && w in g[v]
      ensures w in g.Keys
    {
      ArchiveGraphClosed(ls, v, w);
    }
    ArchiveGraphKeys(ls, start);
    forall v | Reaches(g, start, v)
      ensures v in g
    {
      var p :| IsPath(g, p) && p[0] == start && p[|p| - 1] == v;
      PathStaysIn(g, g.Keys, p);
    }
  }

  /** Every global definer is a listed file, so it can start a drawing. */
  lemma GlobalDefinerStartsDrawing(ls: seq<Listed>, s: SymName)
    requires s in GlobalIndex(ls)
    ensures ReachableAreKeys(ArchiveGraph(ls), GlobalIndex(ls)[s])
  {
    DefinersAreListed(ls, Global);
    DrawingFindsEntries(ls, GlobalIndex(ls)[s]);
  }

  /**
   * A name that no file defines globally and two files define weakly gives
   * no edge: it is reported as unresolved for every file that uses it.
   */
  lemma AmbiguousWeakIsUnresolved(ls: seq<Listed>, f: FileName, s: SymName, i: nat, j: nat)
    requires f in Names(ls)
    requires i < j < |ls| && s in ls[i].syms.weaks && s in ls[j].syms.weaks
    requires s !in GlobalIndex(ls)
    ensures f in UndefIndex(ls)
    ensures s in UndefIndex(ls)[f] ==> s in UnresolvedIn(GlobalIndex(ls), WeakIndex(ls), UndefIndex(ls)[f])
  {
    UndefIndexKeys(ls);
    WeakIndexAmbiguous(ls, i, j, s);
  }
}
