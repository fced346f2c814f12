/** What `create_tree` promises about the lines it draws, stated over the
    specification functions of module `Tree`. */
module TreeProperties {
  import opened Names
  import opened Tree

  // ---------------------------------------------------------------------
  // The lines drawn for one level
  // ---------------------------------------------------------------------

  /** `line` is one of the lines drawn for an entry of the level whose prefix is
      `prefix`: a connector follows the prefix. Lines of a subtree have an
      indent there instead. */
  predicate IsHead(line: string, prefix: string)
  {
    |line| >= |prefix| + 4 &&
    (line[|prefix|..|prefix| + 4] == Connector(true) || line[|prefix|..|prefix| + 4] == Connector(false))
  }

  /** The lines of `lines` that belong to the level of `prefix`, in order. */
  function Heads(lines: seq<string>, prefix: string): seq<string>
  {
    if lines == [] then []
    else (if IsHead(lines[0], prefix) then [lines[0]] else []) + Heads(lines[1..], prefix)
  }

  /** What the level of `prefix` should show for the sorted listing `names`,
      from index `i` on: one line per visible name, `prefix`, then the corner
      connector only at the final index of the whole listing, then the name. */
  function EntryHeads(names: seq<string>, i: nat, prefix: string): seq<string>
    requires i <= |names|
    decreases |names| - i
  {
    if i == |names| then []
    else (if Hidden(names[i]) then [] else [prefix + Connector(i == |names| - 1) + names[i]])
         + EntryHeads(names, i + 1, prefix)
  }

  lemma {:induction false} HeadsConcat(a: seq<string>, b: seq<string>, prefix: string)
    ensures Heads(a + b, prefix) == Heads(a, prefix) + Heads(b, prefix)
  {
    if a == [] {
      assert a + b == b;
    } else {
      assert (a + b)[1..] == a[1..] + b;
      HeadsConcat(a[1..], b, prefix);
    }
  }

  /** The lines of a subtree never count as lines of the level above it. */
  lemma {:induction false} NoHeadsBelow(lines: seq<string>, prefix: string, isLast: bool)
    requires forall line :: line in lines ==> Drawn(line, prefix + Indent(isLast))
    ensures Heads(lines, prefix) == []
  {
    if lines != [] {
      var line := lines[0];
      assert Drawn(line, prefix + Indent(isLast));
      assert line[|prefix|..|prefix| + 4] == line[..|prefix| + 4][|prefix|..] == Indent(isLast);
      NoHeadsBelow(lines[1..], prefix, isLast);
    }
  }

  /** The lines of the subtree of visible entry `i`: none for a file. */
  function EntryBelow(dir: Node, names: seq<string>, i: nat, prefix: string): (sub: seq<string>)
    requires dir.Dir? && names == SortedNames(dir.entries.Keys) && i < |names| && !Hidden(names[i])
    ensures Entry(dir, names, i, prefix) == [prefix + Connector(i == |names| - 1) + names[i]] + sub
    ensures forall line :: line in sub ==> Drawn(line, prefix + Indent(i == |names| - 1))
  {
    var child := dir.entries[names[i]];
    if child.Dir? then Render(child, prefix + Indent(i == |names| - 1)) else []
  }

  lemma HeadLine(prefix: string, isLast: bool, name: string)
    ensures IsHead(prefix + Connector(isLast) + name, prefix)
    ensures (prefix + Connector(isLast) + name)[|prefix|..|prefix| + 4] == Connector(isLast)
  {
    assert (prefix + Connector(isLast) + name)[|prefix|..|prefix| + 4] == Connector(isLast);
  }

  /** The lines one entry contributes to its own level: its own line, if it
      is visible. */
  lemma HeadsOfEntry(dir: Node, names: seq<string>, i: nat, prefix: string)
    requires dir.Dir? && names == SortedNames(dir.entries.Keys) && i < |names|
    ensures Heads(Entry(dir, names, i, prefix), prefix)
         == if Hidden(names[i]) then [] else [prefix + Connector(i == |names| - 1) + names[i]]
  {
    if !Hidden(names[i]) {
      var isLast := i == |names| - 1;
      var line := prefix + Connector(isLast) + names[i];
      var sub := EntryBelow(dir, names, i, prefix);
      HeadsConcat([line], sub, prefix);
      NoHeadsBelow(sub, prefix, isLast);
      HeadLine(prefix, isLast, names[i]);
      assert Heads([line], prefix) == [line];
    }
  }

  /** The listing from `i` is entry `i` followed by the listing from `i + 1`. */
  lemma ListingUnfold(dir: Node, names: seq<string>, i: nat, prefix: string)
    requires dir.Dir? && names == SortedNames(dir.entries.Keys) && i < |names|
    ensures Listing(dir, names, i, prefix) == Entry(dir, names, i, prefix) + Listing(dir, names, i + 1, prefix)
  {
  }

  lemma {:induction false} HeadsOfListing(dir: Node, names: seq<string>, i: nat, prefix: string)
    requires dir.Dir? && names == SortedNames(dir.entries.Keys) && i <= |names|
    ensures Heads(Listing(dir, names, i, prefix), prefix) == EntryHeads(names, i, prefix)
    decreases |names| - i
  {
    if i < |names| {
      var entry := Entry(dir, names, i, prefix);
      var rest := Listing(dir, names, i + 1, prefix);
      calc {
        Heads(Listing(dir, names, i, prefix), prefix);
        { ListingUnfold(dir, names, i, prefix); }
        Heads(entry + rest, prefix);
        { HeadsConcat(entry, rest, prefix); }
        Heads(entry, prefix) + Heads(rest, prefix);
        { HeadsOfEntry(dir, names, i, prefix);
          HeadsOfListing(dir, names, i + 1, prefix); }
        EntryHeads(names, i, prefix);
      }
    }
  }

  /** The lines of the level of `prefix` are exactly one per visible entry of
      the sorted listing, each `prefix + connector + name`, with the corner
      connector only for the entry at the final index of the listing, hidden
      entries included in that count. */
  lemma EntryLines(dir: Node, prefix: string)
    requires dir.Dir?
    ensures Heads(Render(dir, prefix), prefix) == EntryHeads(SortedNames(dir.entries.Keys), 0, prefix)
  {
    HeadsOfListing(dir, SortedNames(dir.entries.Keys), 0, prefix);
  }

  // ---------------------------------------------------------------------
  // Order of the entries and the skipping of hidden names
  // ---------------------------------------------------------------------

  /** The names of `names` that do not start with a dot, in order. */
  function VisibleNames(names: seq<string>): seq<string>
  {
    if names == [] then []
    else (if Hidden(names[0]) then [] else [names[0]]) + VisibleNames(names[1..])
  }

  /** The name written on a line of the level of `prefix`. */
  function NameOf(line: string, prefix: string): string
  {
    if |line| >= |prefix| + 4 then line[|prefix| + 4..] else ""
  }

  function NamesOf(lines: seq<string>, prefix: string): (r: seq<string>)
    ensures |r| == |lines|
  {
    if lines == [] then [] else [NameOf(lines[0], prefix)] + NamesOf(lines[1..], prefix)
  }

  lemma {:induction false} VisibleNamesMembers(names: seq<string>)
    ensures forall n :: n in VisibleNames(names) <==> n in names && !Hidden(n)
  {
    if names != [] {
      VisibleNamesMembers(names[1..]);
      assert names == [names[0]] + names[1..];
    }
  }

  lemma {:induction false} VisibleNamesAscending(names: seq<string>)
    requires StrictlyAscending(names)
    ensures StrictlyAscending(VisibleNames(names))
  {
    if names != [] {
      var rest := VisibleNames(names[1..]);
      VisibleNamesAscending(names[1..]);
      VisibleNamesMembers(names[1..]);
      if !Hidden(names[0]) {
        forall n | n in rest ensures Below(names[0], n) && names[0] != n {
          var k :| 0 <= k < |names| - 1 && names[1..][k] == n;
          assert names[k + 1] == n;
        }
        AscendingCons(names[0], rest);
      }
    }
  }

  lemma {:induction false} EntryHeadsNames(names: seq<string>, i: nat, prefix: string)
    requires i <= |names|
    ensures NamesOf(EntryHeads(names, i, prefix), prefix) == VisibleNames(names[i..])
    decreases |names| - i
  {
    if i < |names| {
      EntryHeadsNames(names, i + 1, prefix);
      assert names[i..][1..] == names[i + 1..];
      var line := prefix + Connector(i == |names| - 1) + names[i];
      var own := if Hidden(names[i]) then [] else [line];
      assert NamesOf(own + EntryHeads(names, i + 1, prefix), prefix)
          == NamesOf(own, prefix) + NamesOf(EntryHeads(names, i + 1, prefix), prefix) by {
        NamesOfConcat(own, EntryHeads(names, i + 1, prefix), prefix);
      }
      assert NameOf(line, prefix) == names[i];
    }
  }

  lemma {:induction false} NamesOfConcat(a: seq<string>, b: seq<string>, prefix: string)
    ensures NamesOf(a + b, prefix) == NamesOf(a, prefix) + NamesOf(b, prefix)
  {
    if a == [] {
      assert a + b == b;
    } else {
      assert (a + b)[1..] == a[1..] + b;
      NamesOfConcat(a[1..], b, prefix);
    }
  }

  /** The entries of one level are drawn in strictly ascending order of their
      names, and the names drawn are exactly the directory's names that do not
      start with a dot. */
  lemma EntriesInSortedOrder(dir: Node, prefix: string)
    requires dir.Dir?
    ensures StrictlyAscending(NamesOf(Heads(Render(dir, prefix), prefix), prefix))
    ensures forall n :: n in NamesOf(Heads(Render(dir, prefix), prefix), prefix) <==> n in dir.entries && !Hidden(n)
  {
    var names := SortedNames(dir.entries.Keys);
    EntryLines(dir, prefix);
    EntryHeadsNames(names, 0, prefix);
    assert names[0..] == names;
    SortedNamesAscending(dir.entries.Keys);
    SortedNamesComplete(dir.entries.Keys);
    VisibleNamesAscending(names);
    VisibleNamesMembers(names);
  }

  lemma {:induction false} HeadsMembers(lines: seq<string>, prefix: string)
    ensures forall line :: line in Heads(lines, prefix) <==> line in lines && IsHead(line, prefix)
  {
    if lines != [] {
      HeadsMembers(lines[1..], prefix);
      assert lines == [lines[0]] + lines[1..];
    }
  }

  lemma {:induction false} NamesOfMembers(lines: seq<string>, prefix: string)
    ensures forall line :: line in lines ==> NameOf(line, prefix) in NamesOf(lines, prefix)
  {
    if lines != [] {
      NamesOfMembers(lines[1..], prefix);
      assert lines == [lines[0]] + lines[1..];
    }
  }

  /** Every line of the level of `prefix` names a visible entry of `dir`. */
  lemma HeadsNameVisibleEntries(dir: Node, prefix: string)
    requires dir.Dir?
    ensures forall line :: line in Render(dir, prefix) && IsHead(line, prefix) ==>
      NameOf(line, prefix) in dir.entries && !Hidden(NameOf(line, prefix))
  {
    HeadsMembers(Render(dir, prefix), prefix);
    NamesOfMembers(Heads(Render(dir, prefix), prefix), prefix);
    EntriesInSortedOrder(dir, prefix);
  }

  /** A name that starts with a dot gets no line, under either connector. */
  lemma HiddenYieldsNoLine(dir: Node, prefix: string, name: string, isLast: bool)
    requires dir.Dir? && name in dir.entries && Hidden(name)
    ensures prefix + Connector(isLast) + name !in Render(dir, prefix)
  {
    HeadLine(prefix, isLast, name);
    assert NameOf(prefix + Connector(isLast) + name, prefix) == name;
    HeadsNameVisibleEntries(dir, prefix);
  }

  // ---------------------------------------------------------------------
  // The corner connector
  // ---------------------------------------------------------------------

  /** `line` uses the corner connector at the level of `prefix`. */
  predicate IsCorner(line: string, prefix: string)
  {
    |line| >= |prefix| + 4 && line[|prefix|..|prefix| + 4] == Connector(true)
  }

  lemma {:induction false} EntryHeadsCorner(names: seq<string>, i: nat, prefix: string)
    requires i <= |names|
    ensures forall line :: line in EntryHeads(names, i, prefix) && IsCorner(line, prefix) ==>
      !Hidden(names[|names| - 1]) && line == prefix + Connector(true) + names[|names| - 1]
    decreases |names| - i
  {
    if i < |names| {
      EntryHeadsCorner(names, i + 1, prefix);
      HeadLine(prefix, i == |names| - 1, names[i]);
    }
  }

  lemma {:induction false} EntryHeadsLast(names: seq<string>, i: nat, prefix: string)
    requires i < |names| && !Hidden(names[|names| - 1])
    ensures prefix + Connector(true) + names[|names| - 1] in EntryHeads(names, i, prefix)
    decreases |names| - i
  {
    if i < |names| - 1 {
      EntryHeadsLast(names, i + 1, prefix);
    }
  }

  /** A line of the level of `prefix` uses the corner connector exactly when
      the final entry of the sorted listing is visible, and then only that
      entry's line does. */
  lemma CornerOnlyForVisibleLast(dir: Node, prefix: string)
    requires dir.Dir?
    ensures var names := SortedNames(dir.entries.Keys);
      forall line :: line in Render(dir, prefix) && IsCorner(line, prefix) ==>
        names != [] && !Hidden(names[|names| - 1]) && line == prefix + Connector(true) + names[|names| - 1]
    ensures var names := SortedNames(dir.entries.Keys);
      names != [] && !Hidden(names[|names| - 1]) ==> prefix + Connector(true) + names[|names| - 1] in Render(dir, prefix)
  {
    var names := SortedNames(dir.entries.Keys);
    EntryLines(dir, prefix);
    HeadsMembers(Render(dir, prefix), prefix);
    EntryHeadsCorner(names, 0, prefix);
    if names != [] && !Hidden(names[|names| - 1]) {
      EntryHeadsLast(names, 0, prefix);
    }
  }

  /** When the final name of the sorted listing starts with a dot, no line of
      that level uses the corner connector, not even the last visible one. */
  lemma LastHiddenNoCorner(dir: Node, prefix: string)
    requires dir.Dir?
    requires var names := SortedNames(dir.entries.Keys); names != [] && Hidden(names[|names| - 1])
    ensures forall line :: line in Render(dir, prefix) ==> !IsCorner(line, prefix)
  {
    CornerOnlyForVisibleLast(dir, prefix);
  }

  // ---------------------------------------------------------------------
  // Where an entry's lines sit
  // ---------------------------------------------------------------------

  lemma {:induction false} ListingSuffix(dir: Node, names: seq<string>, i: nat, prefix: string)
    requires dir.Dir? && names == SortedNames(dir.entries.Keys) && i <= |names|
    ensures |Listing(dir, names, i, prefix)| <= |Render(dir, prefix)|
    ensures Render(dir, prefix)[|Render(dir, prefix)| - |Listing(dir, names, i, prefix)|..] == Listing(dir, names, i, prefix)
    decreases i
  {
    if i > 0 {
      ListingSuffix(dir, names, i - 1, prefix);
      var whole := Render(dir, prefix);
      var entry := Entry(dir, names, i - 1, prefix);
      var rest := Listing(dir, names, i, prefix);
      ListingUnfold(dir, names, i - 1, prefix);
      var k := |whole| - |entry + rest|;
      SuffixAfter(whole, k, entry, rest);
    }
  }

  /** Dropping the front part `a` of a suffix `a + b` leaves the suffix `b`. */
  lemma SuffixAfter(lines: seq<string>, k: nat, a: seq<string>, b: seq<string>)
    requires k <= |lines| && lines[k..] == a + b
    ensures |b| <= |lines| && lines[|lines| - |b|..] == b
  {
    assert lines[k + |a|..] == (a + b)[|a|..];
  }

  /** Index of the first line drawn for entry `i` of the sorted listing. */
  function Position(dir: Node, prefix: string, i: nat): int
    requires dir.Dir? && i <= |SortedNames(dir.entries.Keys)|
  {
    |Render(dir, prefix)| - |Listing(dir, SortedNames(dir.entries.Keys), i, prefix)|
  }

  lemma SplitAt(lines: seq<string>, k: nat, line: string, sub: seq<string>, rest: seq<string>)
    requires k <= |lines| && lines[k..] == [line] + sub + rest
    ensures k + 1 + |sub| <= |lines|
    ensures lines[k] == line && lines[k + 1..k + 1 + |sub|] == sub && lines[k + 1 + |sub|..] == rest
  {
    assert lines[k] == lines[k..][0];
    assert lines[k + 1..k + 1 + |sub|] == lines[k..][1..1 + |sub|];
    assert lines[k + 1 + |sub|..] == lines[k..][1 + |sub|..];
  }

  /** A visible entry's line is `prefix + connector + name`; right after it
      come all the lines of its subtree, drawn with the prefix extended by the
      indent (blank under the last entry, a bar otherwise) and none for a
      file; right after those come the lines of the next entries. */
  lemma EntryThenSubtree(dir: Node, prefix: string, i: nat)
    requires dir.Dir? && i < |SortedNames(dir.entries.Keys)|
    requires !Hidden(SortedNames(dir.entries.Keys)[i])
    ensures var names := SortedNames(dir.entries.Keys);
      var isLast := i == |names| - 1;
      var child := dir.entries[names[i]];
      var sub := if child.Dir? then Render(child, prefix + Indent(isLast)) else [];
      var lines := Render(dir, prefix);
      var k := Position(dir, prefix, i);
      0 <= k && k + 1 + |sub| <= |lines| &&
      lines[k] == prefix + Connector(isLast) + names[i] &&
      lines[k + 1..k + 1 + |sub|] == sub &&
      lines[k + 1 + |sub|..] == Listing(dir, names, i + 1, prefix)
  {
    var names := SortedNames(dir.entries.Keys);
    ListingSuffix(dir, names, i, prefix);
    var sub := EntryBelow(dir, names, i, prefix);
    var child := dir.entries[names[i]];
    assert sub == if child.Dir? then Render(child, prefix + Indent(i == |names| - 1)) else [];
    var rest := Listing(dir, names, i + 1, prefix);
    ListingUnfold(dir, names, i, prefix);
    SplitAt(Render(dir, prefix), Position(dir, prefix, i), prefix + Connector(i == |names| - 1) + names[i], sub, rest);
  }

  // ---------------------------------------------------------------------
  // How many lines
  // ---------------------------------------------------------------------

  /** The paths, relative to `node`, of every entry that does not start with a
      dot and is reached only through directories that do not either. */
  ghost function Reach(node: Node): set<seq<string>>
    decreases node
  {
    match node
    case File => {}
    case Dir(m) => set n, q | n in m && !Hidden(n) && q in {[]} + Reach(m[n]) :: [n] + q
  }

  /** The reachable paths that start at entry `name`. */
  ghost function Under(dir: Node, name: string): set<seq<string>>
  {
    set q | q in Reach(dir) && q != [] && q[0] == name
  }

  /** The reachable paths that start at one of `names[i..]`. */
  ghost function ReachFrom(dir: Node, names: seq<string>, i: nat): set<seq<string>>
    requires i <= |names|
  {
    set q | q in Reach(dir) && q != [] && q[0] in names[i..]
  }

  lemma {:induction false} PrependCard(s: set<seq<string>>, name: string)
    ensures |set q | q in s :: [name] + q| == |s|
    decreases s
  {
    if s != {} {
      var x :| x in s;
      var s' := s - {x};
      PrependCard(s', name);
      var image := set q | q in s :: [name] + q;
      var image' := set q | q in s' :: [name] + q;
      assert image == image' + {[name] + x};
      forall q | q in s' ensures [name] + q != [name] + x {
        assert ([name] + q)[1..] == q && ([name] + x)[1..] == x;
      }
      assert [name] + x !in image';
    }
  }

  lemma UnderVisible(dir: Node, name: string)
    requires dir.Dir? && name in dir.entries
    ensures Hidden(name) ==> Under(dir, name) == {}
    ensures !Hidden(name) ==> Under(dir, name) == set q | q in {[]} + Reach(dir.entries[name]) :: [name] + q
  {
    var m := dir.entries;
    if !Hidden(name) {
      var image := set q | q in {[]} + Reach(m[name]) :: [name] + q;
      forall p | p in image ensures p in Under(dir, name) {
        var q :| q in {[]} + Reach(m[name]) && p == [name] + q;
        assert p[0] == name;
      }
      forall p | p in Under(dir, name) ensures p in image {
        var n, q :| n in m && !Hidden(n) && q in {[]} + Reach(m[n]) && p == [n] + q;
        assert n == p[0] == name;
      }
    }
  }

  lemma UnderCard(dir: Node, name: string)
    requires dir.Dir? && name in dir.entries && !Hidden(name)
    ensures |Under(dir, name)| == 1 + |Reach(dir.entries[name])|
  {
    UnderVisible(dir, name);
    PrependCard({[]} + Reach(dir.entries[name]), name);
    assert [] !in Reach(dir.entries[name]);
  }

  lemma ReachFromStep(dir: Node, names: seq<string>, i: nat)
    requires dir.Dir? && names == SortedNames(dir.entries.Keys) && i < |names|
    ensures ReachFrom(dir, names, i) == Under(dir, names[i]) + ReachFrom(dir, names, i + 1)
    ensures Under(dir, names[i]) !! ReachFrom(dir, names, i + 1)
  {
    SortedNamesAscending(dir.entries.Keys);
    assert names[i..] == [names[i]] + names[i + 1..];
    forall q | q in ReachFrom(dir, names, i + 1) ensures q[0] != names[i] {
      var k :| 0 <= k < |names| - i - 1 && names[i + 1..][k] == q[0];
      assert names[i + 1 + k] == q[0];
    }
  }

  lemma ReachFromAll(dir: Node)
    requires dir.Dir?
    ensures ReachFrom(dir, SortedNames(dir.entries.Keys), 0) == Reach(dir)
  {
    var names := SortedNames(dir.entries.Keys);
    SortedNamesComplete(dir.entries.Keys);
    assert names[0..] == names;
    forall q | q in Reach(dir) ensures q != [] && q[0] in names {
      var n, q' :| n in dir.entries && !Hidden(n) && q' in {[]} + Reach(dir.entries[n]) && q == [n] + q';
      assert q[0] == n;
    }
  }

  lemma {:induction false} CountFrom(dir: Node, names: seq<string>, i: nat, prefix: string)
    requires dir.Dir? && names == SortedNames(dir.entries.Keys) && i <= |names|
    ensures |Listing(dir, names, i, prefix)| == |ReachFrom(dir, names, i)|
    decreases dir, |names| - i
  {
    if i == |names| {
      assert ReachFrom(dir, names, i) == {};
    } else {
      CountFrom(dir, names, i + 1, prefix);
      ReachFromStep(dir, names, i);
      var name := names[i];
      var child := dir.entries[name];
      if Hidden(name) {
        UnderVisible(dir, name);
      } else {
        UnderCard(dir, name);
        var isLast := i == |names| - 1;
        if child.Dir? {
          CountFrom(child, SortedNames(child.entries.Keys), 0, prefix + Indent(isLast));
          ReachFromAll(child);
          assert |Entry(dir, names, i, prefix)| == 1 + |Render(child, prefix + Indent(isLast))|;
        } else {
          assert |Entry(dir, names, i, prefix)| == 1;
        }
      }
    }
  }

  /** One line per entry that does not start with a dot and sits under
      directories that do not either: the number of lines is the number of
      such paths. */
  lemma LineCount(dir: Node, prefix: string)
    requires dir.Dir?
    ensures |Render(dir, prefix)| == |Reach(dir)|
  {
    CountFrom(dir, SortedNames(dir.entries.Keys), 0, prefix);
    ReachFromAll(dir);
  }

  lemma {:induction false} FlatListing(dir: Node, names: seq<string>, i: nat, prefix: string)
    requires dir.Dir? && names == SortedNames(dir.entries.Keys) && i <= |names|
    requires forall n :: n in dir.entries ==> dir.entries[n].File?
    ensures Listing(dir, names, i, prefix) == EntryHeads(names, i, prefix)
    decreases |names| - i
  {
    if i < |names| {
      FlatListing(dir, names, i + 1, prefix);
    }
  }

  /** A directory that holds only files gets one line per name that does not
      start with a dot, and nothing else. */
  lemma FlatDirectory(dir: Node, prefix: string)
    requires dir.Dir?
    requires forall n :: n in dir.entries ==> dir.entries[n].File?
    ensures Render(dir, prefix) == EntryHeads(SortedNames(dir.entries.Keys), 0, prefix)
    ensures |Render(dir, prefix)| == |set n | n in dir.entries && !Hidden(n)|
  {
    var names := SortedNames(dir.entries.Keys);
    var visible := set n | n in dir.entries && !Hidden(n);
    FlatListing(dir, names, 0, prefix);
    EntryHeadsNames(names, 0, prefix);
    assert names[0..] == names;
    SortedNamesAscending(dir.entries.Keys);
    SortedNamesComplete(dir.entries.Keys);
    VisibleNamesAscending(names);
    VisibleNamesMembers(names);
    SortedNamesUnique(VisibleNames(names), visible);
  }

  // ---------------------------------------------------------------------
  // Hidden entries are never descended into
  // ---------------------------------------------------------------------

  lemma {:induction false} ListingIgnoresHidden(dir: Node, other: Node, names: seq<string>, i: nat, prefix: string)
    requires dir.Dir? && other.Dir? && dir.entries.Keys == other.entries.Keys
    requires forall n :: n in dir.entries && !Hidden(n) ==> dir.entries[n] == other.entries[n]
    requires names == SortedNames(dir.entries.Keys) && i <= |names|
    ensures Listing(dir, names, i, prefix) == Listing(other, names, i, prefix)
    decreases |names| - i
  {
    if i < |names| {
      ListingIgnoresHidden(dir, other, names, i + 1, prefix);
    }
  }

  /** What lies inside an entry that starts with a dot never shows: two
      directories with the same names, whose other entries agree, draw the
      same lines. The hidden names themselves still matter, as they take part
      in the choice of the corner connector. */
  lemma HiddenContentIgnored(dir: Node, other: Node, prefix: string)
    requires dir.Dir? && other.Dir? && dir.entries.Keys == other.entries.Keys
    requires forall n :: n in dir.entries && !Hidden(n) ==> dir.entries[n] == other.entries[n]
    ensures Render(dir, prefix) == Render(other, prefix)
  {
    ListingIgnoresHidden(dir, other, SortedNames(dir.entries.Keys), 0, prefix);
  }

  // ---------------------------------------------------------------------
  // Two drawings worked out
  // ---------------------------------------------------------------------

  /** `-a` sorts before `.b`, so the only visible entry is not at the final
      index and is drawn with the tee connector, with no corner below it. */
  lemma LastHiddenExample()
    ensures Render(Dir(map["-a" := File, ".b" := File]), "") == ["├── -a"]
  {
    var dir := Dir(map["-a" := File, ".b" := File]);
    assert dir.entries.Keys == {"-a", ".b"};
    assert Below("-a", ".b");
    SortedNamesUnique(["-a", ".b"], {"-a", ".b"});
    var names := ["-a", ".b"];
    assert Listing(dir, names, 2, "") == [];
    assert Listing(dir, names, 1, "") == [];
    assert !Hidden("-a") && "" + Connector(false) + "-a" == "├── -a";
    assert Entry(dir, names, 0, "") == ["├── -a"];
  }

  /** A directory holding only file `b`, drawn one level down under a bar. */
  lemma NestedInnerExample()
    ensures Render(Dir(map["b" := File]), "│   ") == ["│   └── b"]
  {
    var inner := Dir(map["b" := File]);
    assert inner.entries.Keys == {"b"};
    SortedNamesUnique(["b"], {"b"});
    assert Listing(inner, ["b"], 1, "│   ") == [];
    assert "│   " + Connector(true) + "b" == "│   └── b";
    assert Entry(inner, ["b"], 0, "│   ") == ["│   └── b"];
  }

  /** A directory `a` holding file `b`, followed by file `c`. */
  lemma NestedExample()
    ensures Render(Dir(map["c" := File, "a" := Dir(map["b" := File])]), "")
         == ["├── a", "│   └── b", "└── c"]
  {
    var dir := Dir(map["c" := File, "a" := Dir(map["b" := File])]);
    assert dir.entries.Keys == {"a", "c"};
    assert Below("a", "c");
    SortedNamesUnique(["a", "c"], {"a", "c"});
    NestedInnerExample();
    var names := ["a", "c"];
    assert Listing(dir, names, 2, "") == [];
    assert "" + Connector(true) + "c" == "└── c";
    assert Entry(dir, names, 1, "") == ["└── c"];
    assert "" + Connector(false) + "a" == "├── a" && "" + Indent(false) == "│   ";
    assert Entry(dir, names, 0, "") == ["├── a", "│   └── b"];
  }
}
