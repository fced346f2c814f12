# Directory tree renderer of kong-hybrid-setup

`create_tree(startpath, prefix="")` in `kong-hybrid-setup/script_12.py` draws
the project layout as a list of text lines. It lists a directory, sorts the
names, and skips every name that starts with a dot. For each other name it
emits `prefix + "├── " + name`, or `prefix + "└── " + name` when the name is
at the last index of the sorted listing. For a subdirectory it then recurses
with the prefix extended by `"│   "`, or by four spaces after the last entry.
A start path that does not exist gives no lines. The script calls it once,
as `create_tree("kong-hybrid-setup")`.

This project models that function over a finite tree value, not a real file
system:

- `Tree.Node` is either `File` or `Dir(entries)`, with a map from entry name
  to node. Map keys are distinct, just as the names in one `os.listdir`
  result are.
- The start path is an `Option<Node>`. `None` stands for a path that does not
  exist.
- A start path that exists but is a file makes `os.listdir` raise. The model
  returns `Err(NotADirectory)` for it.
- Python's `sorted` on `str` values is `Names.SortedNames`. It orders names
  code point by code point, and a proper prefix sorts first (`Names.Below`).
- `Tree.CreateTree` is the loop-and-recursion method, proved equal to the
  functional reference `Tree.TreeLines` / `Tree.Render`.
- The lemmas in `TreeProperties` state what the drawing means. They cover:
  - which lines belong to a level;
  - the order of the names;
  - hidden entries;
  - where the corner connector appears;
  - where an entry's subtree lines sit;
  - how many lines there are.

The model keeps one behaviour of the code exactly as written. `is_last` is
computed against the full sorted listing, hidden names included. So when the
listing's final name is hidden, no visible entry of that directory gets the
`└── ` corner, and no subtree gets the four-space indent. Since `'-'` sorts
before `'.'`, a directory holding `-a` and `.b` draws only `├── -a`
(`TreeProperties.LastHiddenExample`).

## Model

| member | source | states |
|---|---|---|
| Names.SortedNames | kong-hybrid-setup/script_12.py:186 | `sorted(os.listdir(...))` over a directory's distinct names: exactly as many names as the directory has, each one of them |
| Names.SortedNamesComplete | kong-hybrid-setup/script_12.py:186 | every name of the directory appears in the sorted listing |
| Names.SortedNamesAscending | kong-hybrid-setup/script_12.py:186 | the sorted listing is strictly ascending in Python's string order |
| Names.SortedNamesUnique | kong-hybrid-setup/script_12.py:186 | any strictly ascending arrangement of the directory's names is the sorted listing, so the listing order is fully determined |
| Names.SortedNamesFirst | kong-hybrid-setup/script_12.py:186 | the sorted listing begins with the least name, followed by the sorted listing of the rest |
| Names.BelowTotal | kong-hybrid-setup/script_12.py:186 | Python's string order compares any two names |
| Names.BelowTransitive | kong-hybrid-setup/script_12.py:186 | Python's string order is transitive |
| Names.BelowAntisymmetric | kong-hybrid-setup/script_12.py:186 | two names that each sort at or before the other are equal |
| Tree.Entry | kong-hybrid-setup/script_12.py:188-196 | the lines for one listing entry (none if hidden, else its line and then its subtree) all start with the current prefix |
| Tree.Listing | kong-hybrid-setup/script_12.py:187-196 | the lines for the listing from one index on all start with the current prefix |
| Tree.Render | kong-hybrid-setup/script_12.py:186-196 | the lines drawn for an existing directory: the listing of all its sorted names from index 0, every line beginning with the given prefix |
| Tree.TreeLines | kong-hybrid-setup/script_12.py:182-197 | a start path that does not exist yields no lines; exactly a start path that is a file raises; otherwise every line begins with the given prefix |
| Tree.CreateTree | kong-hybrid-setup/script_12.py:182-197 | the loop with its recursive calls returns exactly the reference rendering `TreeLines(start, prefix)` |
| Tree.ProjectStructure | kong-hybrid-setup/script_12.py:202 | the call with the default empty prefix returns the reference rendering of the project directory |
| Tree.ListingStep | kong-hybrid-setup/script_12.py:188-196 | one loop turn appends exactly the entry's lines, so gathered lines plus the rest of the listing stay the whole rendering |
| TreeProperties.EntryLines | kong-hybrid-setup/script_12.py:187-193 | the lines at a directory's own level are, in listing order, one per visible name, each with `└── ` exactly when the name is at the listing's last index |
| TreeProperties.HeadsOfListing | kong-hybrid-setup/script_12.py:187-196 | the level lines of the listing from index i are the entry lines of names i onward; subtree lines never count as level lines |
| TreeProperties.EntriesInSortedOrder | kong-hybrid-setup/script_12.py:186-193 | the names shown at a level are strictly ascending, and a name is shown iff it is in the directory and not hidden |
| TreeProperties.HeadsNameVisibleEntries | kong-hybrid-setup/script_12.py:188-193 | every level line names an entry of the directory that is not hidden |
| TreeProperties.HiddenYieldsNoLine | kong-hybrid-setup/script_12.py:188-189 | a name starting with a dot never gets a line of its own, whichever connector is tried |
| TreeProperties.HiddenContentIgnored | kong-hybrid-setup/script_12.py:188-196 | the contents of hidden entries do not affect the rendering: directories with the same names and the same visible children draw the same lines |
| TreeProperties.CornerOnlyForVisibleLast | kong-hybrid-setup/script_12.py:187-193 | a `└── ` line at a level exists iff the listing's last name is visible, and it is that name's line |
| TreeProperties.LastHiddenNoCorner | kong-hybrid-setup/script_12.py:187-193 | when the listing's last name is hidden, no line of that level carries `└── ` |
| TreeProperties.EntryThenSubtree | kong-hybrid-setup/script_12.py:191-196 | a visible entry's line is followed immediately by its subtree's lines, drawn with the prefix extended by `│   ` or four spaces, and then by the lines of the later entries |
| TreeProperties.ListingSuffix | kong-hybrid-setup/script_12.py:187-196 | the lines for the entries from index i on form a suffix of the whole rendering |
| TreeProperties.LineCount | kong-hybrid-setup/script_12.py:188-196 | the number of lines equals the number of paths reachable through names that do not start with a dot |
| TreeProperties.CountFrom | kong-hybrid-setup/script_12.py:187-196 | the lines for entries from index i on count the visible paths under those entries |
| TreeProperties.FlatDirectory | kong-hybrid-setup/script_12.py:193-194 | a directory holding only files draws exactly its level lines, one per name not starting with a dot |
| TreeProperties.LastHiddenExample | kong-hybrid-setup/script_12.py:186-193 | a directory of `-a` and `.b` draws only `├── -a`: the hidden last name takes the corner away |
| TreeProperties.NestedInnerExample | kong-hybrid-setup/script_12.py:193-196 | a subdirectory holding `b`, drawn under the prefix `│   `, gives `│   └── b` |
| TreeProperties.NestedExample | kong-hybrid-setup/script_12.py:186-196 | a directory with subdirectory `a` (holding `b`) and file `c` draws `├── a`, `│   └── b`, `└── c` |

## Left out

- File-system access: `os.path.exists`, `os.listdir`, `os.path.isdir` and `os.path.join` are replaced by reading a finite tree value. The paths built by joining are not modelled, because the tree is addressed by entry name.
- Symbolic links are left out. `os.path.isdir` follows them, so a link that points back up the tree is unrolled again at every level. The unrolling stops only at a depth set outside the program: the OS refuses a path with too many links (ELOOP, after which `isdir` is false and the entry is drawn as a plain line), or Python raises `RecursionError`. A finite tree value cannot express a depth chosen by the OS or the interpreter.
- Permission errors and other OS errors raised while listing a subdirectory are not modelled. The only error modelled is listing a start path that is a file.
- Names holding lone surrogate code points are not modelled, because Dafny's `char` excludes surrogates. Names are otherwise any code-point sequences.
- Printing the banner and the returned lines (kong-hybrid-setup/script_12.py:199-204) is output only and is left out.
- The rest of kong-hybrid-setup/script_12.py and the other generator scripts write configuration files. They are not part of this model.
- Appending to the result list: Python's in-place `append`/`extend` on a shared list becomes reassignment of a sequence, since the list is never aliased.
