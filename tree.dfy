/** The directory-tree renderer `create_tree` of kong-hybrid-setup/script_12.py,
    over a finite tree value that stands for the file system. */
module Tree {
  import opened Names

  /** What a path names: a file, or a directory mapping each entry name to
      what that entry is (`os.listdir` and `os.path.isdir` read this). */
  datatype Node = File | Dir(entries: map<string, Node>)

  /** The start path: `None` when `os.path.exists` is false. */
  datatype Option<T> = None | Some(value: T)

  /** `os.listdir` on a path that exists but is not a directory raises. */
  datatype TreeError = NotADirectory

  datatype Result<T> = Ok(value: T) | Err(error: TreeError)

  /** The name starts with a dot. */
  predicate Hidden(name: string)
  {
    |name| > 0 && name[0] == '.'
  }

  /** The drawing in front of an entry's own name. */
  function Connector(isLast: bool): string
  {
    if isLast then "└── " else "├── "
  }

  /** What a directory's entry adds to the prefix of the lines of its subtree. */
  function Indent(isLast: bool): string
  {
    if isLast then "    " else "│   "
  }

  /** `line` starts with `prefix` and has room for a connector or an indent
      after it. */
  predicate Drawn(line: string, prefix: string)
  {
    |line| >= |prefix| + 4 && line[..|prefix|] == prefix
  }

  lemma DrawnDeeper(lines: seq<string>, prefix: string, indent: string)
    requires |indent| == 4
    requires forall line :: line in lines ==> Drawn(line, prefix + indent)
    ensures forall line :: line in lines ==> Drawn(line, prefix)
  {
    forall line | line in lines ensures Drawn(line, prefix) {
      assert line[..|prefix|] == line[..|prefix + indent|][..|prefix|];
    }
  }

  /** The lines drawn for the entry `names[i]` of `dir`: none if it is hidden,
      otherwise its own line followed, for a directory, by the lines of its
      subtree. `names` is the sorted listing of `dir`, hidden names included,
      and the entry counts as last only at its final index. */
  function Entry(dir: Node, names: seq<string>, i: nat, prefix: string): (r: seq<string>)
    requires dir.Dir? && names == SortedNames(dir.entries.Keys) && i < |names|
    ensures forall line :: line in r ==> Drawn(line, prefix)
    decreases dir, |names| - i, 0
  {
    if Hidden(names[i]) then []
    else
      var isLast := i == |names| - 1;
      var child := dir.entries[names[i]];
      var sub := if child.Dir? then Listing(child, SortedNames(child.entries.Keys), 0, prefix + Indent(isLast)) else [];
      DrawnDeeper(sub, prefix, Indent(isLast));
      var line := prefix + Connector(isLast) + names[i];
      assert Drawn(line, prefix) by { assert line[..|prefix|] == prefix; }
      [line] + sub
  }

  /** The lines drawn for the entries `names[i..]` of `dir`, in listing order. */
  function Listing(dir: Node, names: seq<string>, i: nat, prefix: string): (r: seq<string>)
    requires dir.Dir? && names == SortedNames(dir.entries.Keys) && i <= |names|
    ensures forall line :: line in r ==> Drawn(line, prefix)
    decreases dir, |names| - i, 1
  {
    if i == |names| then [] else Entry(dir, names, i, prefix) + Listing(dir, names, i + 1, prefix)
  }

  /** All lines drawn for directory `dir`. */
  function Render(dir: Node, prefix: string): (r: seq<string>)
    requires dir.Dir?
    ensures forall line :: line in r ==> Drawn(line, prefix)
  {
    Listing(dir, SortedNames(dir.entries.Keys), 0, prefix)
  }

  /** What `create_tree(startpath, prefix)` returns, or the error it raises:
      nothing for a path that does not exist, an error for a path that is a
      file, and otherwise lines that all begin with `prefix`. */
  function TreeLines(start: Option<Node>, prefix: string): (r: Result<seq<string>>)
    ensures start.None? ==> r == Ok([])
    ensures r.Err? <==> start.Some? && start.value.File?
    ensures r.Ok? ==> forall line :: line in r.value ==> Drawn(line, prefix)
  {
    match start
    case None => Ok([])
    case Some(File) => Err(NotADirectory)
    case Some(dir) => Ok(Render(dir, prefix))
  }

  /** One turn of the loop in `CreateTree`: what it appends for entry `i` is
      `Entry(dir, names, i, prefix)`, so the lines gathered so far stay a
      prefix of the whole rendering. */
  lemma ListingStep(dir: Node, names: seq<string>, i: nat, prefix: string, done: seq<string>, line: seq<string>, sub: seq<string>)
    requires dir.Dir? && names == SortedNames(dir.entries.Keys) && i < |names|
    requires done + Listing(dir, names, i, prefix) == Render(dir, prefix)
    requires Hidden(names[i]) ==> line == [] && sub == []
    requires !Hidden(names[i]) ==> line == [prefix + Connector(i == |names| - 1) + names[i]]
    requires !Hidden(names[i]) ==> var child := dir.entries[names[i]];
      sub == if child.Dir? then Render(child, prefix + Indent(i == |names| - 1)) else []
    ensures done + line + sub + Listing(dir, names, i + 1, prefix) == Render(dir, prefix)
  {
    assert Entry(dir, names, i, prefix) == line + sub;
    ConcatAssoc(done, line, sub, Listing(dir, names, i + 1, prefix), Render(dir, prefix));
  }

  /** Regrouping the loop's accumulated lines; kept as a lemma so that the
      step above reasons about one equation instead of the whole rendering. */
  lemma ConcatAssoc(done: seq<string>, a: seq<string>, b: seq<string>, l: seq<string>, r: seq<string>)
    requires done + (a + b + l) == r
    ensures done + a + b + l == r
  {
  }

  /** `create_tree`: walks the sorted listing, appending each visible entry's
      line and then, for a directory, the lines of its subtree. */
  method CreateTree(start: Option<Node>, prefix: string) returns (r: Result<seq<string>>)
    ensures r == TreeLines(start, prefix)
    decreases if start.Some? then start.value else File
  {
    if start.None? {
      return Ok([]);
    }
    var dir := start.value;
    if dir.File? {
      return Err(NotADirectory);
    }
    var entries := SortedNames(dir.entries.Keys);
    var items: seq<string> := [];
    for i := 0 to |entries|
      invariant items + Listing(dir, entries, i, prefix) == Render(dir, prefix)
    {
      ghost var before := items;
      var entry := entries[i];
      if Hidden(entry) {
        ListingStep(dir, entries, i, prefix, items, [], []);
        assert items + [] + [] == items;
        continue;
      }
      var isLast := i == |entries| - 1;
      items := items + [prefix + Connector(isLast) + entry];
      var child := dir.entries[entry];
      ghost var sub: seq<string> := [];
      assert items == before + [prefix + Connector(isLast) + entry] + sub;
      if child.Dir? {
        var subtree := CreateTree(Some(child), prefix + Indent(isLast));
        items := items + subtree.value;
        sub := subtree.value;
      }
      ListingStep(dir, entries, i, prefix, before, [prefix + Connector(isLast) + entry], sub);
      assert items == before + [prefix + Connector(isLast) + entry] + sub;
    }
    assert items == Render(dir, prefix);
    return Ok(items);
  }

  /** The call that draws the project: `create_tree("kong-hybrid-setup")`,
      with the default empty prefix. */
  method ProjectStructure(project: Option<Node>) returns (r: Result<seq<string>>)
    ensures r == TreeLines(project, "")
  {
    r := CreateTree(project, "");
  }
}
