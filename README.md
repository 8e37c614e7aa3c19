# depgraph in Dafny

`depgraph.py` draws the link-time dependency graph of the object files in a
static-library directory:

- It reads the ELF-64 symbol table of each object.
- It indexes who defines each name: globally defined, weakly defined, and the
  undefined names each file uses.
- It resolves every undefined name to a defining file. A global definer takes
  precedence, a weak one is a fallback, and a name defined weakly twice is
  ambiguous and left unresolved, unless some file defines it globally.
- From a root file it walks the resulting graph with a stack and a visited set,
  and writes a Graphviz `digraph` of the edges it meets.

The model has six modules, one per stage:

| module | file | models |
|---|---|---|
| `BinaryReader` | binary_reader.dfy | `read_int`, `read_name` as pure functions over the file's bytes |
| `ElfSymbols` | elf_symbols.dfy | `read_section`, `read_syms` (section loop and symbol loop as methods) |
| `SymbolIndex` | symbol_index.dfy | `read_syms_archive` (loops as methods, proved against fold functions) |
| `DependencyGraph` | dependency_graph.dfy | `make_graph` (loops as methods, proved against `GraphOf`/`UnresolvedOf`) |
| `Traversal` | traversal.dfy | `_bfs` and `bfs` (the stack walk as a method with its invariant) |
| `Pipeline` | pipeline.dfy | how the stages fit when they run on one directory listing |

Reads use absolute offsets instead of a stream position.
`BinaryReader.ReadAtSequential` shows that two consecutive reads equal one longer read.

A read past the end of the data returns fewer bytes, as a Python file read
does. So a truncated object is not an error; it yields short fields and
possibly empty tables.

A name with no NUL after its offset is sliced up to the last byte, because
`bytes.find` returns -1 and the slice `[off:-1]` then stops one byte short.

Python's set iteration order is unspecified. Each iteration over a set is
therefore an arbitrary choice (`:|`). Every property is proved for every order.

The walk marks a file visited when it pops it, and it pushes only neighbours
that are not yet visited. So it never writes the same edge twice. In a
diamond A→{B,C}, B→D, C→D it writes exactly one edge into D: the parent of D
visited first pushes D last, D is popped next, and the other parent then
finds it visited (`Traversal.DiamondDrawing`). Several edges into one file
arise only when parents expanded before the file's first visit all push it.

## Model

| member | source | states |
|---|---|---|
| BinaryReader.LittleEndian | depgraph.py:23-24 | the value of n bytes read as little-endian is below 256^n |
| BinaryReader.LittleEndianOfEncoding | depgraph.py:23-24 | decoding the n-byte little-endian encoding of a value below 256^n gives that value back |
| BinaryReader.EncodingOfLittleEndian | depgraph.py:23-24 | re-encoding a decoded byte string in its own width gives the same bytes back |
| BinaryReader.ReadAt | depgraph.py:23-24 | a read returns n bytes when they exist, else only the bytes up to the end of the data, and they are the bytes at that offset |
| BinaryReader.ReadAtSequential | depgraph.py:50-55 | reading n bytes and then m more gives the same bytes as one read of n+m, which justifies replacing the stream position by offsets |
| BinaryReader.ReadInt | depgraph.py:23-24 | `read_int` is below 256^n and, when all n bytes are present, it is their little-endian value |
| BinaryReader.ReadIntOfEncoding | depgraph.py:23-24 | reading at an offset where a value's n-byte encoding sits gives that value |
| BinaryReader.Find | depgraph.py:29 | `find` returns -1 exactly when no matching byte exists at or after the start; otherwise it returns the first matching index |
| BinaryReader.Slice | depgraph.py:30 | a Python slice with an ordinary end is the subsequence; with end -1 it drops the last byte |
| BinaryReader.NameAt | depgraph.py:29-30 | the name holds no NUL; it is the bytes up to the first NUL at or after the offset, or up to the last byte when there is none |
| BinaryReader.ReadName | depgraph.py:27-30 | `read_name` takes the 4-byte offset at the read position and returns the name at that offset in the string table |
| ElfSymbols.ReadHeader | depgraph.py:50-55 | `e_shoff` is the 8 bytes at offset 40; `e_shentsize`, `e_shnum` and `e_shstrndx` are 2 bytes each at 58, 60 and 62; each field is within its width |
| ElfSymbols.ReadHeaderOfEncoding | depgraph.py:50-55 | a header whose four fields are encoded at their offsets reads back as exactly those fields |
| ElfSymbols.ReadSection | depgraph.py:33-38 | the section payload never exceeds `sh_size`; it is the bytes at `sh_offset` when they are all in the file |
| ElfSymbols.LastIndex | depgraph.py:59-65 | finds the last of the first k sections with a given name, or reports that none of them has it |
| ElfSymbols.TableNamedStep | depgraph.py:59-65 | one more section header replaces the kept table exactly when that section has the table's name, so the last section of that name wins |
| ElfSymbols.ScanSections | depgraph.py:59-65 | the section loop keeps the payload of the last section named `.strtab` and of the last named `.symtab` |
| ElfSymbols.ReadTables | depgraph.py:50-65 | the header, section-name table and section loop together give the last `.strtab` and `.symtab` payloads, empty when absent |
| ElfSymbols.DecodeSymLayout | depgraph.py:68-74 | in record ns, `st_name` is the 4 little-endian bytes at 24·ns, `st_info` the byte at +4, `st_other` the byte at +5 and `st_shndx` the 2 bytes at +6 |
| ElfSymbols.RecordFields | depgraph.py:68-74 | the name, binding and section index read from record ns's own 24-byte slice are those of entry ns-1, which the classification uses |
| ElfSymbols.SymbolEntries | depgraph.py:66-68 | there is one entry per whole 24-byte record after record 0; a trailing partial record is ignored |
| ElfSymbols.SymbolEntriesAt | depgraph.py:66-68 | entry i is the decoded record i+1, which lies wholly inside the table |
| ElfSymbols.ClassifyMembership | depgraph.py:75-81 | a name is UNDEF exactly when some record with that name has section index 0; it is GLOBAL (bind 1) or WEAK (bind 2) exactly when some such record has a nonzero index; other bindings go nowhere |
| ElfSymbols.ClassifyIgnoresTypeAndOther | depgraph.py:72-81 | symbol type and visibility do not affect the three sets |
| ElfSymbols.ClassifyPrefix | depgraph.py:67-81 | one more record adds its name to the set of its class and changes nothing else |
| ElfSymbols.ClassifyFirstIsClassify | depgraph.py:67-81 | classifying the records one at a time gives the same sets as the declarative classification |
| ElfSymbols.ClassifySymbols | depgraph.py:66-81 | the symbol loop computes the classification of the table's entries |
| ElfSymbols.ReadSyms | depgraph.py:41-82 | `read_syms` computes the symbol sets of the object described by its bytes |
| SymbolIndex.FirstWriterSpec | depgraph.py:93-100 | offering a set of names adds just those names; existing names keep their file and new ones get the current file |
| SymbolIndex.FirstDefinersKeys | depgraph.py:91-100 | a name is in the first-definer map exactly when some listed file defines it with that binding |
| SymbolIndex.FirstDefinerWins | depgraph.py:93-100 | the map records the first listed file that defines the name |
| SymbolIndex.GlobalIndexFirstDefiner | depgraph.py:93-97 | `out_globl[s]` is the first listed file whose GLOBAL set holds s |
| SymbolIndex.GlobalIndexKeys | depgraph.py:93-97 | `out_globl` holds exactly the names some listed file defines globally |
| SymbolIndex.WeakDuplicatesSpec | depgraph.py:98-102 | `dups` holds exactly the names that two different listed files define weakly |
| SymbolIndex.DuplicatesAreIndexed | depgraph.py:105-106 | every name in `dups` is a key of `out_weak`, so `del` never raises KeyError |
| SymbolIndex.WeakIndexUnique | depgraph.py:98-106 | a name that exactly one listed file defines weakly maps to that file |
| SymbolIndex.WeakIndexAmbiguous | depgraph.py:98-106 | a name that two listed files define weakly is absent from `out_weak` |
| SymbolIndex.WeakIndexDefined | depgraph.py:98-106 | every name of `out_weak` is defined weakly by some listed file |
| SymbolIndex.DefinersAreListed | depgraph.py:91-102 | every file the global and weak maps record is a listed file |
| SymbolIndex.UndefIndexKeys | depgraph.py:103 | `out_undef` has an entry for exactly the listed files |
| SymbolIndex.UndefIndexLast | depgraph.py:103 | a file's entry is the UNDEF set of the last listed file with that name |
| SymbolIndex.DiagnosticsCount | depgraph.py:93-95 | with distinct file names, each (file, symbol) multiple-definition message is emitted exactly when that file defines the name globally after an earlier file did, and at most once |
| SymbolIndex.AddGlobals | depgraph.py:93-97 | the GLOBAL loop keeps earlier definers, adds the current file for new names, and emits one message for each name already present |
| SymbolIndex.AddWeaks | depgraph.py:98-102 | the WEAK loop keeps earlier definers, adds the current file for new names, and adds to `dups` exactly the names already present |
| SymbolIndex.Delete | depgraph.py:106 | `del` removes exactly the given key and keeps every other entry |
| SymbolIndex.RemoveDuplicates | depgraph.py:105-106 | the final loop removes exactly the names in `dups` from the weak map |
| SymbolIndex.AddObject | depgraph.py:92-103 | one pass of the listing loop updates all five pieces of state as the three inner steps do |
| SymbolIndex.IndexArchive | depgraph.py:85-108 | `read_syms_archive` returns the global, undefined and weak indexes of the listing and emits the multiple-definition messages, as a multiset |
| DependencyGraph.DepsOfSpec | depgraph.py:115-120 | a file depends on q exactly when one of its undefined names resolves to q |
| DependencyGraph.GlobalPrecedence | depgraph.py:117-118 | a globally defined name contributes its global definer and is never unresolved |
| DependencyGraph.WeakFallback | depgraph.py:119-120 | a name with only a weak definer contributes that definer and is never unresolved |
| DependencyGraph.UnresolvedInSpec | depgraph.py:121-124 | a name is unresolved for a file exactly when the file uses it and neither index defines it |
| DependencyGraph.DepsAreDefiners | depgraph.py:116-120 | every dependency is a file that one of the two indexes records |
| DependencyGraph.FileDeps | depgraph.py:115-125 | the loop over one file's undefined names computes its dependency set and records the file under each of its unresolved names |
| DependencyGraph.AddReferrerStep | depgraph.py:122-124 | recording one more unresolved name creates or extends that name's entry and leaves every other entry alone |
| DependencyGraph.GraphOfSpec | depgraph.py:114-125 | the graph has a node for exactly the listed files, and each node's successors are that file's dependencies |
| DependencyGraph.UnresolvedOfKeys | depgraph.py:114-124 | `und` has an entry for exactly the names some listed file leaves unresolved |
| DependencyGraph.UnresolvedOfReferrers | depgraph.py:122-124 | `und[s]` holds exactly the listed files that leave s unresolved |
| DependencyGraph.MakeGraph | depgraph.py:111-139 | `make_graph` returns the graph of the listing and builds the unresolved-name map |
| Traversal.RemoveSuffix | depgraph.py:149 | `removesuffix` strips a non-empty suffix the string ends with, and otherwise returns the string unchanged |
| Traversal.RemoveSuffixOfAppend | depgraph.py:149 | removing a suffix that was just appended gives the original string back |
| Traversal.DisplayNames | depgraph.py:143-152 | the suffix is `.o` for an `.o` root and `.lo` otherwise; `bar.o` shows as `bar`, while `bar.lo` under `.o` and `libfoo.a(bar.o)` are not stripped |
| Traversal.EdgeLineInjective | depgraph.py:153 | for names without a double quote, an edge line determines both names |
| Traversal.LinesAppend | depgraph.py:153 | writing one more edge appends that edge's line to the text |
| Traversal.Expand | depgraph.py:150-154 | the inner loop pushes, with no repeats, exactly the successors not yet visited; it adds one edge per push and writes one line per edge |
| Traversal.WalkDone | depgraph.py:146-154 | when the stack is empty, the visited set is exactly the set of nodes reachable from the root, the edges are exactly those from each visited file to the neighbours it found unvisited, and the visiting order is depth-first |
| Traversal.Walk | depgraph.py:142-154 | `_bfs` visits exactly the reachable nodes, and `rank` numbers them 0, 1, … in order of first visit, starting with the root. It writes one line per edge. For reachable p and each neighbour q, the edge p -> q is written exactly when q is first visited after p, i.e. q was not yet visited when p was popped. So no edge repeats, none enters the root, and each reachable non-root node gets at least one; with fan-in it can get several. The numbering is depth-first, because of the stack: if b is visited after a while a neighbour c of a is still unvisited, and b is not a neighbour of a, then b is a neighbour of a file visited between a and b |
| Traversal.Bfs | depgraph.py:157-161 | `bfs` writes the header, the walk's lines and the closing brace; the edges are exactly those `Traversal.Walk` states, under a depth-first, first-visit numbering of the reachable files |
| Traversal.DrawingIsAcyclic | depgraph.py:146-154 | no chain of written edges leads back to its own start, so the written graph is acyclic |
| Traversal.TwoFileDrawing | depgraph.py:142-161 | a root `a.o` that needs `b.o` draws the single line `"a" -> "b"` |
| Traversal.RootNeighboursDrawn | depgraph.py:146-154 | the root is popped first, so an edge is written from it to each of its other neighbours |
| Traversal.DiamondDrawing | depgraph.py:146-154 | in the diamond A→{B,C}, B→D, C→D, both edges out of A are written and exactly one of B→D and C→D, whatever the set order |
| Traversal.JoinDrawnOnce | depgraph.py:146-154 | two files whose only parent is the root and whose only neighbour is d: exactly one of them writes the edge into d, since d is pushed last by the first of them and is popped next |
| Traversal.SiblingFirst | depgraph.py:146-154 | of two such siblings, the one visited first has d visited before the other sibling, which therefore writes no edge into d |
| Pipeline.UndefEntriesFound | depgraph.py:114-116 | for the same listing, `usyms[f]` in `make_graph` always finds an entry |
| Pipeline.ArchiveGraphKeys | depgraph.py:114-125 | the graph built from a directory has a node for exactly its files |
| Pipeline.ArchiveEdge | depgraph.py:114-125 | a file depends on d exactly when one of its undefined names resolves to d |
| Pipeline.ArchiveGraphClosed | depgraph.py:114-125 | every successor is itself a node of the graph |
| Pipeline.DrawingFindsEntries | depgraph.py:150 | a walk started at any listed file never looks up a missing graph entry |
| Pipeline.GlobalDefinerStartsDrawing | depgraph.py:169-171 | a walk started at the global definer of any name, such as `__libc_start_main`, never looks up a missing entry |
| Pipeline.AmbiguousWeakIsUnresolved | depgraph.py:98-124 | a name with no global definer and two weak definers is unresolved in every file that uses it |

## Left out

- `main` (depgraph.py:164-171) is left out because it is command-line plumbing: the argument check, usage message, exit status and the lookup of `__libc_start_main`, including its KeyError when no file defines that name. The root of the walk is a parameter of `Traversal.Bfs`.
- Opening and reading files, `os.listdir` and `os.path.join` are not modelled. A file is its name and its bytes, and the directory is a sequence of them.
- The model assumes both `os.listdir` calls return the same listing. `Pipeline` runs both stages on one listing.
- The deps.dot file is the string `Traversal.Bfs` returns.
- The multiple-definition messages on stderr (depgraph.py:95) are a sequence of (file, symbol) pairs. They are compared as a multiset. Within one file the messages follow the iteration order of its GLOBAL set, which is unspecified. Across files they follow the listing order, which the multiset does not record.
- `print_und` (depgraph.py:127-133) and the loop over `und` whose call to it is commented out (depgraph.py:135-137) are left out: they produce no output. The `und` map itself is modelled.
- `.decode()` is not modelled: symbol and section names stay byte strings, so a UTF-8 decoding error is not modelled either.
- `sys.byteorder` is taken to be little-endian, the byte order of ELF-64 objects on the hosts this runs on.
- STV_* visibility constants (depgraph.py:10-13) and `st_type` are never used in a decision. `ElfSymbols.ClassifyIgnoresTypeAndOther` states this.
- A truncated object raises no error: the code reads short and carries on, and the model follows the code.
- ElfSymbols.ReadSyms: where a malformed object makes Python raise, the model reads short instead. It does not model these exceptions:
  - the UnicodeDecodeError of `.decode()` on a name that is not UTF-8 (depgraph.py:30);
  - the error `seek` raises for an `e_shoff` or `sh_offset` of 2^63 or more (depgraph.py:34, 37);
  - the OverflowError `read` raises for an `sh_size` of 2^63 or more, and the MemoryError a huge but smaller `sh_size` can cause (depgraph.py:38).
  `BinaryReader.ReadAt` returns the available bytes in all these cases, because the model has no exceptions and no memory bound.
- A missing graph entry in `_bfs` is a precondition (`Traversal.ReachableAreKeys`), because the code raises KeyError rather than treating it as an empty set. `Pipeline.DrawingFindsEntries` shows that the precondition holds for every graph `make_graph` builds when the walk starts at a listed file.
- Traversal.Walk: the text is tied to the returned sequence of edges, whose order depends on set iteration. The order of the lines is not stated, only which edges are written. The first-visit numbering `rank` is ghost. The contract states the depth-first condition (`Traversal.DepthFirst`) that the stack imposes on it. It does not state the converse, that every numbering meeting that condition comes from some set iteration order.
