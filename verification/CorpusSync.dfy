/** internal/corpus/publish.go: which files of the staging tree go to the corpus, when they do, and
    what a sync leaves behind. */
module CorpusSync {
  import opened Basics

  /** A relative path, component by component. */
  type Path = seq<string>
  type Content = string
  type Tree = map<Path, Content>

  const SKIPPED_DIRS: set<string> := {".git", ".staging", "schemas"}
  const SKIPPED_NAMES: set<string> := {".gitignore", "corpus-manifest.json", ".publish.log", ".gitkeep"}

  const PROTECTED: set<Path> := {
    ["README.md"], ["AGENTS.md"], ["source-registry.csv"],
    ["strategy", "decision-log.jsonl"], ["strategy", "outcome-review.jsonl"],
    ["team", "league-constitution.md"], ["team", "league-context.md"],
    ["strategy", "dynasty-playbook.md"], ["strategy", "trade-policy.md"],
    ["strategy", "draft-policy.md"], ["strategy", "waiver-policy.md"],
    ["strategy", "lineup-policy.md"]
  }

  const EXTRAS: seq<Path> := [["evidence", "index.md"], ["corpus-manifest.json"], ["datasets", "change-log.jsonl"]]

  /** A file the walk of a tree lists: not under a skipped directory, not bookkeeping, not protected. */
  predicate IsSubstance(p: Path) {
    && p != []
    && (forall i :: 0 <= i < |p| - 1 ==> p[i] !in SKIPPED_DIRS)
    && p[|p| - 1] !in SKIPPED_NAMES
    && p !in PROTECTED
    && !(|p| == 2 && p[0] == "archive")
  }

  function Substance(t: Tree): Tree {
    map p | p in t && IsSubstance(p) :: t[p]
  }

  predicate Copied(p: Path) {
    IsSubstance(p) || p in EXTRAS
  }

  /** What a sync copies. */
  function Outgoing(staging: Tree): Tree {
    map p | p in staging && Copied(p) :: staging[p]
  }

  /** The digests of two files agree only when their bytes do. */
  ghost predicate NoCollision(digest: Content -> nat) {
    forall a, b :: digest(a) == digest(b) ==> a == b
  }

  /** What deserves a commit: any difference among the substance files. */
  predicate Material(staging: Tree, corpus: Tree) {
    Substance(staging) != Substance(corpus)
  }

  /** The names in the corpus directory while a publish is on its way: the staging tree is one of them. */
  function Listing(corpus: Tree): set<string> {
    {".staging"} + set p | p in corpus && p != [] :: p[0]
  }

  /** Some staged substance file cannot be compared with its counterpart. */
  ghost predicate Doubtful(readable: Path -> bool, staging: Tree) {
    exists p :: p in Substance(staging) && !readable(p)
  }

  /** materialChanges compares the number of files and, for each staged one, its digest. A corpus that
      cannot be listed or a file that cannot be read on either side counts as a change. So would an empty
      listing, but a publish makes the staging tree inside the corpus before it gets here. */
  method MaterialChanges(
    digest: Content -> nat, entries: Option<set<string>>, readable: Path -> bool, staging: Tree, corpus: Tree)
    returns (changed: bool)
    requires NoCollision(digest)
    requires entries.Some? ==> ".staging" in entries.value
    ensures changed <==> entries.None? || Material(staging, corpus) || Doubtful(readable, staging)
  {
    if entries.None? || entries.value == {} {
      return true;
    }
    var stagingFiles, corpusFiles := Substance(staging), Substance(corpus);
    if |stagingFiles.Keys| != |corpusFiles.Keys| {
      return true;
    }
    var rest := stagingFiles.Keys;
    while rest != {}
      invariant rest <= stagingFiles.Keys
      invariant forall p :: p in stagingFiles && p !in rest ==>
                  readable(p) && p in corpusFiles && corpusFiles[p] == stagingFiles[p]
      decreases |rest|
    {
      var rel :| rel in rest;
      if rel !in corpusFiles {
        return true;
      }
      if !readable(rel) || digest(stagingFiles[rel]) != digest(corpusFiles[rel]) {
        assert rel in stagingFiles;
        return true;
      }
      rest := rest - {rel};
    }
    SubsetSize(stagingFiles.Keys, corpusFiles.Keys);
    assert stagingFiles == corpusFiles;
    return false;
  }

  /** The corpus after a sync in which every write succeeds. */
  function Synced(staging: Tree, corpus: Tree): Tree {
    corpus + Outgoing(staging)
  }

  function ExtrasOf(staging: Tree): Tree {
    map p | p in staging && p in EXTRAS :: staging[p]
  }

  lemma SyncedIsBoth(staging: Tree, corpus: Tree)
    ensures (corpus + Substance(staging)) + ExtrasOf(staging) == Synced(staging, corpus)
  {
  }

  /** Copying a file may fail before anything is written, or leave a damaged file behind. */
  datatype Fault = Untouched | Damage(left: Content)

  type Trouble = Path -> Option<Fault>

  function Failed(corpus: Tree, p: Path, fault: Fault): Tree {
    match fault
    case Untouched => corpus
    case Damage(left) => corpus[p := left]
  }

  predicate Clean(trouble: Trouble, files: Tree) {
    forall p :: p in files ==> trouble(p).None?
  }

  /** File `p` of `r` is the new one, a damaged one, or the old one. */
  predicate FromCopy(trouble: Trouble, files: Tree, corpus: Tree, r: Tree, p: Path)
    requires p in r
  {
    || (p in files && (r[p] == files[p] || trouble(p) == Some(Damage(r[p]))))
    || (p in corpus && r[p] == corpus[p])
  }

  /** Nothing is gone, and every file is one of those. */
  predicate AllFromCopy(trouble: Trouble, files: Tree, corpus: Tree, r: Tree) {
    corpus.Keys <= r.Keys && forall p :: p in r ==> FromCopy(trouble, files, corpus, r, p)
  }

  /** All of `files` but those in `rest` have been copied, each without trouble. */
  ghost predicate PartlyCopied(trouble: Trouble, files: Tree, corpus: Tree, rest: set<Path>, r: Tree) {
    && (forall p :: p in r <==> p in corpus || (p in files && p !in rest))
    && (forall p :: p in r ==> r[p] == if p in files && p !in rest then files[p] else corpus[p])
    && (forall p :: p in files && p !in rest ==> trouble(p).None?)
  }

  lemma OneMoreCopied(trouble: Trouble, files: Tree, corpus: Tree, rest: set<Path>, r: Tree, rel: Path)
    requires PartlyCopied(trouble, files, corpus, rest, r)
    requires rel in rest && rest <= files.Keys && trouble(rel).None?
    ensures PartlyCopied(trouble, files, corpus, rest - {rel}, r[rel := files[rel]])
  {
  }

  lemma FailedCopy(trouble: Trouble, files: Tree, corpus: Tree, rest: set<Path>, r: Tree, rel: Path)
    requires PartlyCopied(trouble, files, corpus, rest, r)
    requires rel in rest && rest <= files.Keys && trouble(rel).Some?
    ensures AllFromCopy(trouble, files, corpus, Failed(r, rel, trouble(rel).value))
    ensures !Clean(trouble, files)
  {
  }

  lemma AllCopied(trouble: Trouble, files: Tree, corpus: Tree, r: Tree)
    requires PartlyCopied(trouble, files, corpus, {}, r)
    ensures r == corpus + files && Clean(trouble, files)
    ensures AllFromCopy(trouble, files, corpus, r)
  {
  }

  /** After a sync of `a` a render `b` is not material exactly when each of its substance files is as `a`
      left it, or as the corpus had it where `a` has none, and it lacks none of the two: a sync never
      deletes, so one file that is no longer rendered makes every later publish material. */
  lemma QuietAfterSyncIff(a: Tree, b: Tree, corpus: Tree)
    ensures !Material(b, Synced(a, corpus)) <==>
            && Substance(a).Keys + Substance(corpus).Keys <= Substance(b).Keys
            && forall p :: p in Substance(b) ==>
                 if p in a then b[p] == a[p] else p in corpus && b[p] == corpus[p]
  {
    SubstanceOfSynced(a, corpus);
    var left, right := Substance(b), Substance(corpus) + Substance(a);
    if left.Keys == right.Keys && forall p :: p in left ==> left[p] == right[p] {
      assert left == right;
    }
  }

  lemma SubstanceOfSynced(staging: Tree, corpus: Tree)
    ensures Substance(Synced(staging, corpus)) == Substance(corpus) + Substance(staging)
  {
  }

  /** Syncing twice is syncing once, and a later sync wins file by file. */
  lemma SyncTwice(a: Tree, b: Tree, corpus: Tree)
    ensures Synced(a, Synced(a, corpus)) == Synced(a, corpus)
    ensures Synced(b, Synced(a, corpus)) == corpus + (Outgoing(a) + Outgoing(b))
  {
  }

  /** Protected files are out of reach of every sync. */
  lemma ProtectedSurvive(staging: Tree, corpus: Tree, p: Path)
    requires p in PROTECTED && p in corpus
    ensures p in Synced(staging, corpus) && Synced(staging, corpus)[p] == corpus[p]
  {
  }

  // ---------- The walk that lists them ----------

  datatype Node = FileNode(content: Content) | DirNode(entries: map<string, Node>)

  /** The file at a path below a directory. */
  function FileAt(dir: Node, p: Path): Option<Content>
    decreases |p|
  {
    if p == [] then (if dir.FileNode? then Some(dir.content) else None)
    else if dir.DirNode? && p[0] in dir.entries then FileAt(dir.entries[p[0]], p[1..])
    else None
  }

  /** `t` has the files of the directory and no others. */
  ghost predicate IsFlat(dir: Node, t: Tree) {
    forall p :: FileAt(dir, p) == if p in t then Some(t[p]) else None
  }

  /** Path `p` leads below `prefix` to a file of the directory, and the file is listed. */
  predicate Lists(prefix: Path, dir: Node, p: Path) {
    |p| > |prefix| && p[..|prefix|] == prefix && FileAt(dir, p[|prefix|..]).Some? && IsSubstance(p)
  }

  predicate Unskipped(prefix: Path) {
    forall i :: 0 <= i < |prefix| ==> prefix[i] !in SKIPPED_DIRS
  }

  /** The files of `r` are those of `files` and, overriding them, the listed ones not below a name in `rest`. */
  ghost predicate Walked(prefix: Path, dir: Node, files: Tree, rest: set<string>, r: Tree) {
    && (forall p :: p in r <==> p in files || (Lists(prefix, dir, p) && p[|prefix|] !in rest))
    && (forall p :: p in r ==>
          if Lists(prefix, dir, p) && p[|prefix|] !in rest then FileAt(dir, p[|prefix|..]) == Some(r[p])
          else r[p] == files[p])
  }

  lemma PrefixSnoc(prefix: Path, name: string, p: Path)
    requires |p| > |prefix|
    ensures p[..|prefix| + 1] == prefix + [name] <==> p[..|prefix|] == prefix && p[|prefix|] == name
    ensures p[|prefix|..][0] == p[|prefix|] && p[|prefix|..][1..] == p[|prefix| + 1..]
  {
    var q := p[..|prefix| + 1];
    assert q == p[..|prefix|] + [p[|prefix|]];
    assert (prefix + [name])[..|prefix|] == prefix && (prefix + [name])[|prefix|] == name;
    assert q[..|prefix|] == p[..|prefix|] && q[|prefix|] == p[|prefix|];
  }

  lemma FileBelow(prefix: Path, dir: Node, p: Path)
    requires dir.DirNode? && |p| > |prefix| && p[|prefix|] in dir.entries
    ensures FileAt(dir, p[|prefix|..]) == FileAt(dir.entries[p[|prefix|]], p[|prefix| + 1..])
  {
    PrefixSnoc(prefix, p[|prefix|], p);
  }

  lemma ListsChild(prefix: Path, dir: Node, name: string, p: Path)
    requires dir.DirNode? && name in dir.entries && dir.entries[name].DirNode?
    ensures Lists(prefix + [name], dir.entries[name], p) <==>
            Lists(prefix, dir, p) && |p| > |prefix| && p[|prefix|] == name
    ensures Lists(prefix + [name], dir.entries[name], p) ==>
              FileAt(dir, p[|prefix|..]) == FileAt(dir.entries[name], p[|prefix| + 1..])
  {
    if |p| > |prefix| {
      PrefixSnoc(prefix, name, p);
      if p[|prefix|] == name {
        FileBelow(prefix, dir, p);
        if |p| == |prefix| + 1 {
          assert p[|prefix| + 1..] == [];
        }
      }
    }
  }

  lemma WalkedChild(prefix: Path, dir: Node, files: Tree, rest: set<string>, r: Tree, name: string, s: Tree)
    requires dir.DirNode? && name in dir.entries && dir.entries[name].DirNode? && name in rest
    requires Walked(prefix, dir, files, rest, r) && Walked(prefix + [name], dir.entries[name], r, {}, s)
    ensures Walked(prefix, dir, files, rest - {name}, s)
  {
    forall p
      ensures Lists(prefix + [name], dir.entries[name], p) <==> Lists(prefix, dir, p) && p[|prefix|] == name
      ensures Lists(prefix + [name], dir.entries[name], p) ==>
                FileAt(dir, p[|prefix|..]) == FileAt(dir.entries[name], p[|prefix| + 1..])
    {
      ListsChild(prefix, dir, name, p);
    }
  }

  /** Nothing below `name` is listed. */
  lemma WalkedNothing(prefix: Path, dir: Node, files: Tree, rest: set<string>, r: Tree, name: string)
    requires Walked(prefix, dir, files, rest, r)
    requires forall q :: Lists(prefix, dir, q) ==> q[|prefix|] != name
    ensures Walked(prefix, dir, files, rest - {name}, r)
  {
  }

  /** One file is. */
  lemma WalkedOne(prefix: Path, dir: Node, files: Tree, rest: set<string>, r: Tree, name: string, p: Path, c: Content)
    requires Walked(prefix, dir, files, rest, r) && name in rest
    requires Lists(prefix, dir, p) && p[|prefix|] == name && FileAt(dir, p[|prefix|..]) == Some(c)
    requires forall q :: Lists(prefix, dir, q) && q[|prefix|] == name ==> q == p
    ensures Walked(prefix, dir, files, rest - {name}, r[p := c])
  {
  }

  lemma WalkedFile(prefix: Path, dir: Node, files: Tree, rest: set<string>, r: Tree, name: string)
    requires dir.DirNode? && name in dir.entries && dir.entries[name].FileNode? && name in rest
    requires Walked(prefix, dir, files, rest, r)
    ensures var p := prefix + [name];
      Walked(prefix, dir, files, rest - {name}, if IsSubstance(p) then r[p := dir.entries[name].content] else r)
  {
    var p := prefix + [name];
    forall q | |q| > |prefix| && q[|prefix|] == name
      ensures Lists(prefix, dir, q) <==> q == p && IsSubstance(q)
    {
      FileIsLeaf(prefix, dir, name, q);
    }
    FileIsLeaf(prefix, dir, name, p);
    if IsSubstance(p) {
      WalkedOne(prefix, dir, files, rest, r, name, p, dir.entries[name].content);
    } else {
      WalkedNothing(prefix, dir, files, rest, r, name);
    }
  }

  lemma FileIsLeaf(prefix: Path, dir: Node, name: string, q: Path)
    requires dir.DirNode? && name in dir.entries && dir.entries[name].FileNode?
    requires |q| > |prefix| && q[|prefix|] == name
    ensures Lists(prefix, dir, q) <==> q == prefix + [name] && IsSubstance(q)
    ensures q == prefix + [name] ==> FileAt(dir, q[|prefix|..]) == Some(dir.entries[name].content)
  {
    FileBelow(prefix, dir, q);
    PrefixSnoc(prefix, name, q);
    if |q| == |prefix| + 1 {
      assert q[|prefix| + 1..] == [] && q[..|prefix| + 1] == q;
    }
  }

  lemma WalkedSkipped(prefix: Path, dir: Node, files: Tree, rest: set<string>, r: Tree, name: string)
    requires dir.DirNode? && name in dir.entries && dir.entries[name].DirNode? && name in rest
    requires name in SKIPPED_DIRS && Walked(prefix, dir, files, rest, r)
    ensures Walked(prefix, dir, files, rest - {name}, r)
  {
    forall q | |q| > |prefix| && q[|prefix|] == name
      ensures !Lists(prefix, dir, q)
    {
      FileBelow(prefix, dir, q);
      if |q| == |prefix| + 1 {
        assert q[|prefix| + 1..] == [];
      }
    }
  }

  method IsProtected(rel: Path) returns (r: bool)
    requires rel != []
    ensures r <==> rel in PROTECTED || rel[|rel| - 1] == ".gitkeep" || (|rel| == 2 && rel[0] == "archive")
  {
    if rel in PROTECTED {
      return true;
    }
    if rel[|rel| - 1] == ".gitkeep" {
      return true;
    }
    if |rel| == 2 && rel[0] == "archive" {
      return true;
    }
    return false;
  }

  method ProcessFile(prefix: Path, name: string, content: Content, files: Tree) returns (r: Tree)
    requires Unskipped(prefix)
    ensures r == if IsSubstance(prefix + [name]) then files[prefix + [name] := content] else files
  {
    if name == ".gitignore" || name == "corpus-manifest.json" || name == ".publish.log" {
      return files;
    }
    var rel := prefix + [name];
    var hidden := IsProtected(rel);
    if hidden {
      return files;
    }
    return files[rel := content];
  }

  /** walkDir, over the entries in any order. */
  method WalkDir(prefix: Path, dir: Node, files: Tree) returns (r: Tree)
    requires dir.DirNode? && Unskipped(prefix)
    ensures Walked(prefix, dir, files, {}, r)
    decreases dir
  {
    r := files;
    var rest := dir.entries.Keys;
    AllStillToWalk(prefix, dir, files);
    while rest != {}
      invariant rest <= dir.entries.Keys && Walked(prefix, dir, files, rest, r)
      decreases |rest|
    {
      var name :| name in rest;
      match dir.entries[name] {
        case FileNode(content) =>
          WalkedFile(prefix, dir, files, rest, r, name);
          r := ProcessFile(prefix, name, content, r);
        case DirNode(_) =>
          if name == ".git" || name == ".staging" || name == "schemas" {
            WalkedSkipped(prefix, dir, files, rest, r, name);
          } else {
            ghost var before := r;
            r := WalkDir(prefix + [name], dir.entries[name], r);
            WalkedChild(prefix, dir, files, rest, before, name, r);
          }
      }
      rest := rest - {name};
    }
  }

  lemma AllStillToWalk(prefix: Path, dir: Node, files: Tree)
    requires dir.DirNode?
    ensures Walked(prefix, dir, files, dir.entries.Keys, files)
  {
  }

  /** listSubstanceFiles: the walk lists exactly the substance files of the directory. */
  method ListSubstanceFiles(root: Node, ghost t: Tree) returns (files: Tree)
    requires root.DirNode? && IsFlat(root, t)
    ensures files == Substance(t)
  {
    files := WalkDir([], root, map[]);
    ListedIsSubstance(root, t, files);
  }

  lemma ListedIsSubstance(root: Node, t: Tree, files: Tree)
    requires root.DirNode? && IsFlat(root, t) && Walked([], root, map[], {}, files)
    ensures files == Substance(t)
  {
    forall p
      ensures Lists([], root, p) <==> p in Substance(t)
      ensures p in t ==> FileAt(root, p) == Some(t[p])
    {
      assert p[..0] == [] && p[0..] == p;
      assert FileAt(root, p) == if p in t then Some(t[p]) else None;
    }
    forall p | p in files
      ensures files[p] == t[p]
    {
      assert p[0..] == p;
    }
  }
}
