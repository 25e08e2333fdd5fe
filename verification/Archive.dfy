/** The delivery archive: what the export writes, and the verifier of what it wrote. */
module Archive {
  import opened Options
  import opened Text
  import opened Splitting

  const MANIFEST := "DELIVERY_MANIFEST.json"
  const MIGRATIONS := "infrastructure/database/migrations/"

  type Bytes = seq<bv8>

  datatype Item = Item(path: string, sha256: string, bytes: nat)
  datatype Delivery = Delivery(inventory: seq<Item>, treeHash: string, fileCount: nat, frozenThrough: string)

  /** What the scripts take from their libraries: SHA-256 in hexadecimal, UTF-8, and JSON. */
  datatype Library = Library(sha: Bytes -> string, utf8: string -> Bytes, render: Delivery -> Bytes, parse: Bytes -> Delivery)
  {
    ghost predicate JsonRoundTrips() {
      forall d :: parse(render(d)) == d
    }

    /** SHA-256 tells these two texts apart if they differ. */
    predicate NoCollision(a: Bytes, b: Bytes) {
      sha(a) == sha(b) ==> a == b
    }

    function TextDigest(text: string): string {
      sha(utf8(text))
    }
  }

  // ---- the tree hash -----------------------------------------------------------------------------

  function LineOf(item: Item): string {
    item.path + ":" + item.sha256
  }

  function LinesOf(inventory: seq<Item>): seq<string> {
    seq(|inventory|, i requires 0 <= i < |inventory| => LineOf(inventory[i]))
  }

  /** The text under the tree hash. */
  function TreeText(inventory: seq<Item>): string {
    Join(LinesOf(inventory), "\n")
  }

  // ---- the export --------------------------------------------------------------------------------

  datatype Refusal =
    | ForbiddenName(path: string)
    | Credential(path: string)
    | Unfrozen(names: seq<string>)
    | ZipCount(entries: nat, inventory: nat)

  datatype Outcome = Refused(why: Refusal) | Exported(tree: map<string, Bytes>)

  /** The checks whose rules lie elsewhere: forbidden names, and credentials in a file. */
  datatype Rules = Rules(forbidden: string -> bool, credential: (string, Bytes) -> bool)

  function ItemOf(path: string, content: Bytes, lib: Library): Item {
    Item(path, lib.sha(content), |content|)
  }

  function InventoryOf(tracked: seq<string>, files: map<string, Bytes>, lib: Library): seq<Item>
    requires forall p | p in tracked :: p in files
  {
    seq(|tracked|, i requires 0 <= i < |tracked| => ItemOf(tracked[i], files[tracked[i]], lib))
  }

  function DeliveryOf(inventory: seq<Item>, frozenThrough: string, lib: Library): Delivery {
    Delivery(inventory, lib.TextDigest(TreeText(inventory)), |inventory|, frozenThrough)
  }

  function FirstForbidden(tracked: seq<string>, rules: Rules): Option<string> {
    if tracked == [] then None
    else if rules.forbidden(tracked[0]) then Some(tracked[0])
    else FirstForbidden(tracked[1..], rules)
  }

  function FirstCredential(tracked: seq<string>, files: map<string, Bytes>, rules: Rules): Option<string>
    requires forall p | p in tracked :: p in files
  {
    if tracked == [] then None
    else if rules.credential(tracked[0], files[tracked[0]]) then Some(tracked[0])
    else FirstCredential(tracked[1..], files, rules)
  }

  predicate StartsWith(text: string, head: string) { |head| <= |text| && text[..|head|] == head }
  predicate EndsWith(text: string, tail: string) { |tail| <= |text| && text[|text| - |tail|..] == tail }

  predicate IsMigration(path: string) {
    StartsWith(path, MIGRATIONS) && EndsWith(path, ".sql")
  }

  /** Migrations the tree holds beyond the frozen floor. */
  function Newer(paths: seq<string>, frozenThrough: string): seq<string> {
    if paths == [] then []
    else
      var rest := Newer(paths[1..], frozenThrough);
      if IsMigration(paths[0]) && Less(frozenThrough, paths[0][|MIGRATIONS|..]) then [paths[0][|MIGRATIONS|..]] + rest else rest
  }

  /** The listed files, each at its own bytes. */
  function CopyOf(tracked: seq<string>, files: map<string, Bytes>): map<string, Bytes>
    requires forall p | p in tracked :: p in files
  {
    map p | p in tracked :: files[p]
  }

  /** The tree the export zips: the copied files and the manifest. */
  function TreeOf(tracked: seq<string>, files: map<string, Bytes>, frozenThrough: string, lib: Library): map<string, Bytes>
    requires forall p | p in tracked :: p in files
  {
    CopyOf(tracked, files)[MANIFEST := lib.render(DeliveryOf(InventoryOf(tracked, files, lib), frozenThrough, lib))]
  }

  function ExportOf(tracked: seq<string>, files: map<string, Bytes>, frozenThrough: string, rules: Rules, lib: Library): Outcome
    requires forall p | p in tracked :: p in files
  {
    if FirstForbidden(tracked, rules).Some? then Refused(ForbiddenName(FirstForbidden(tracked, rules).value))
    else if FirstCredential(tracked, files, rules).Some? then Refused(Credential(FirstCredential(tracked, files, rules).value))
    else if Newer(Sort(tracked), frozenThrough) != [] then Refused(Unfrozen(Newer(Sort(tracked), frozenThrough)))
    else
      var tree := TreeOf(tracked, files, frozenThrough, lib);
      if |tree| != |tracked| + 1 then Refused(ZipCount(|tree|, |tracked|)) else Exported(tree)
  }

  method CheckNames(tracked: seq<string>, rules: Rules) returns (bad: Option<string>)
    ensures bad == FirstForbidden(tracked, rules)
  {
    for i := 0 to |tracked|
      invariant FirstForbidden(tracked, rules) == FirstForbidden(tracked[i..], rules)
    {
      if rules.forbidden(tracked[i]) {
        return Some(tracked[i]);
      }
    }
    return None;
  }

  /** Copies and hashes the inventory; stops at a file with credential material. */
  method CopyAndHash(tracked: seq<string>, files: map<string, Bytes>, rules: Rules, lib: Library)
    returns (bad: Option<string>, tree: map<string, Bytes>, inventory: seq<Item>)
    requires forall p | p in tracked :: p in files
    ensures bad == FirstCredential(tracked, files, rules)
    ensures bad.None? ==> tree == CopyOf(tracked, files) && inventory == InventoryOf(tracked, files, lib)
  {
    tree, inventory := map[], [];
    for i := 0 to |tracked|
      invariant FirstCredential(tracked, files, rules) == FirstCredential(tracked[i..], files, rules)
      invariant tree == CopyOf(tracked[..i], files)
      invariant inventory == InventoryOf(tracked[..i], files, lib)
    {
      var rel := tracked[i];
      assert tracked[..i + 1] == tracked[..i] + [rel];
      tree := tree[rel := files[rel]];
      inventory := inventory + [ItemOf(rel, files[rel], lib)];
      if rules.credential(rel, files[rel]) {
        return Some(rel), tree, inventory;
      }
    }
    assert tracked[..|tracked|] == tracked;
    bad := None;
  }

  method Export(tracked: seq<string>, files: map<string, Bytes>, frozenThrough: string, rules: Rules, lib: Library)
    returns (outcome: Outcome)
    requires forall p | p in tracked :: p in files
    ensures outcome == ExportOf(tracked, files, frozenThrough, rules, lib)
  {
    var forbidden := CheckNames(tracked, rules);
    if forbidden.Some? {
      return Refused(ForbiddenName(forbidden.value));
    }
    var credential, tree, inventory := CopyAndHash(tracked, files, rules, lib);
    if credential.Some? {
      return Refused(Credential(credential.value));
    }
    var newer := Newer(Sort(tracked), frozenThrough);
    if newer != [] {
      return Refused(Unfrozen(newer));
    }
    tree := tree[MANIFEST := lib.render(DeliveryOf(inventory, frozenThrough, lib))];
    if |tree| != |inventory| + 1 {
      return Refused(ZipCount(|tree|, |inventory|));
    }
    return Exported(tree);
  }

  // ---- the verifier ------------------------------------------------------------------------------

  datatype Problem = Missing(path: string) | Altered(path: string) | TreeHash

  function EntryProblem(item: Item, disk: map<string, Bytes>, lib: Library): seq<Problem> {
    if item.path !in disk then [Missing(item.path)]
    else if lib.sha(disk[item.path]) != item.sha256 then [Altered(item.path)]
    else []
  }

  function EntryProblems(inventory: seq<Item>, disk: map<string, Bytes>, lib: Library): seq<Problem> {
    if inventory == [] then [] else EntryProblem(inventory[0], disk, lib) + EntryProblems(inventory[1..], disk, lib)
  }

  function ProblemsOf(disk: map<string, Bytes>, lib: Library): seq<Problem> {
    if MANIFEST !in disk then []
    else
      var m := lib.parse(disk[MANIFEST]);
      EntryProblems(m.inventory, disk, lib) + if lib.TextDigest(TreeText(m.inventory)) != m.treeHash then [TreeHash] else []
  }

  lemma NextEntryProblem(found: seq<Problem>, inventory: seq<Item>, disk: map<string, Bytes>, lib: Library, i: nat)
    requires i < |inventory|
    ensures found + EntryProblems(inventory[i..], disk, lib)
         == (found + EntryProblem(inventory[i], disk, lib)) + EntryProblems(inventory[i + 1..], disk, lib)
  {
    assert inventory[i..][0] == inventory[i] && inventory[i..][1..] == inventory[i + 1..];
    Reassociate(found, EntryProblem(inventory[i], disk, lib), EntryProblems(inventory[i + 1..], disk, lib));
  }

  method CheckInventory(inventory: seq<Item>, disk: map<string, Bytes>, lib: Library) returns (problems: seq<Problem>)
    ensures problems == EntryProblems(inventory, disk, lib)
  {
    problems := [];
    for i := 0 to |inventory|
      invariant problems + EntryProblems(inventory[i..], disk, lib) == EntryProblems(inventory, disk, lib)
    {
      var entry := inventory[i];
      NextEntryProblem(problems, inventory, disk, lib, i);
      if entry.path !in disk {
        problems := problems + [Missing(entry.path)];
        continue;
      }
      var onDisk := lib.sha(disk[entry.path]);
      if onDisk != entry.sha256 {
        problems := problems + [Altered(entry.path)];
      }
    }
  }

  method ArchiveMatchesItsManifest(disk: map<string, Bytes>, lib: Library) returns (problems: seq<Problem>)
    ensures problems == ProblemsOf(disk, lib)
    ensures forall problem :: problem in problems <==> Due(disk, lib, problem)
  {
    forall problem
      ensures problem in ProblemsOf(disk, lib) <==> Due(disk, lib, problem)
    {
      ReportedIffDue(disk, lib, problem);
    }
    if MANIFEST !in disk {
      return [];
    }
    var m := lib.parse(disk[MANIFEST]);
    problems := CheckInventory(m.inventory, disk, lib);
    var recomputed := lib.TextDigest(TreeText(m.inventory));
    if recomputed != m.treeHash {
      problems := problems + [TreeHash];
    }
  }

  // ---- what a clean verdict means ------------------------------------------------------------------

  /** The entry's file is on disk, at its digest. */
  predicate Held(item: Item, disk: map<string, Bytes>, lib: Library) {
    item.path in disk && lib.sha(disk[item.path]) == item.sha256
  }

  lemma {:induction false} EntryProblemsNone(inventory: seq<Item>, disk: map<string, Bytes>, lib: Library)
    ensures EntryProblems(inventory, disk, lib) == [] <==> forall item | item in inventory :: Held(item, disk, lib)
  {
    if inventory != [] {
      EntryProblemsNone(inventory[1..], disk, lib);
      assert inventory == [inventory[0]] + inventory[1..];
      var first, later := EntryProblem(inventory[0], disk, lib), EntryProblems(inventory[1..], disk, lib);
      assert first == [] <==> Held(inventory[0], disk, lib);
      assert first + later == [] <==> first == [] && later == [];
    }
  }

  /** No problem, exactly when every entry's file is on disk at its digest and the tree hash is the
      digest of the inventory's text. */
  lemma CleanIff(disk: map<string, Bytes>, lib: Library)
    requires MANIFEST in disk
    ensures var m := lib.parse(disk[MANIFEST]);
            ProblemsOf(disk, lib) == []
            <==> (forall item | item in m.inventory :: Held(item, disk, lib)) && lib.TextDigest(TreeText(m.inventory)) == m.treeHash
  {
    EntryProblemsNone(lib.parse(disk[MANIFEST]).inventory, disk, lib);
  }

  // ---- an exported tree verifies -------------------------------------------------------------------

  /** The count of the zip's entries is right exactly when no path is listed twice and none is the
      manifest's own. */
  lemma ZipCountIff(tracked: seq<string>, files: map<string, Bytes>, frozenThrough: string, lib: Library)
    requires forall p | p in tracked :: p in files
    ensures |TreeOf(tracked, files, frozenThrough, lib)| == |tracked| + 1 <==> Distinct(tracked) && MANIFEST !in tracked
  {
    var tree := TreeOf(tracked, files, frozenThrough, lib);
    assert tree.Keys == Members(tracked) + {MANIFEST};
    assert |tree| == |tree.Keys|;
    MembersCount(tracked);
    if MANIFEST in tracked {
      assert Members(tracked) + {MANIFEST} == Members(tracked);
    }
  }

  /** Every exported tree verifies clean, and holds each listed file at its own bytes. */
  lemma ExportedTreeVerifies(tracked: seq<string>, files: map<string, Bytes>, frozenThrough: string, rules: Rules, lib: Library)
    requires lib.JsonRoundTrips()
    requires forall p | p in tracked :: p in files
    requires ExportOf(tracked, files, frozenThrough, rules, lib).Exported?
    ensures var tree := ExportOf(tracked, files, frozenThrough, rules, lib).tree;
            && ProblemsOf(tree, lib) == []
            && Distinct(tracked) && tree.Keys == Members(tracked) + {MANIFEST}
            && (forall p | p in tracked :: tree[p] == files[p])
  {
    ZipCountIff(tracked, files, frozenThrough, lib);
    var tree := TreeOf(tracked, files, frozenThrough, lib);
    assert lib.parse(tree[MANIFEST]) == DeliveryOf(InventoryOf(tracked, files, lib), frozenThrough, lib);
    CopiesAreHeld(tracked, files, lib, tree);
    CleanIff(tree, lib);
  }

  /** What an exported tree's manifest says: each listed file with its digest and size, in order; how many
      there are; the frozen end; and the tree hash. */
  lemma DeliveredManifest(tracked: seq<string>, files: map<string, Bytes>, frozenThrough: string, rules: Rules, lib: Library)
    requires lib.JsonRoundTrips()
    requires forall p | p in tracked :: p in files
    requires ExportOf(tracked, files, frozenThrough, rules, lib).Exported?
    ensures var tree := ExportOf(tracked, files, frozenThrough, rules, lib).tree;
            && "DELIVERY_MANIFEST.json" in tree
            && var m := lib.parse(tree["DELIVERY_MANIFEST.json"]);
            && |m.inventory| == m.fileCount == |tracked| && m.frozenThrough == frozenThrough
            && (forall i | 0 <= i < |tracked| ::
                  m.inventory[i].path == tracked[i] && m.inventory[i].sha256 == lib.sha(files[tracked[i]]) && m.inventory[i].bytes == |files[tracked[i]]|)
            && m.treeHash == lib.sha(lib.utf8(TreeText(m.inventory)))
  {
    ManifestRead(tracked, files, frozenThrough, rules, lib);
  }

  lemma CopiesAreHeld(tracked: seq<string>, files: map<string, Bytes>, lib: Library, tree: map<string, Bytes>)
    requires forall p | p in tracked :: p in files && p in tree && tree[p] == files[p]
    ensures forall item | item in InventoryOf(tracked, files, lib) :: Held(item, tree, lib)
  {
    var inventory := InventoryOf(tracked, files, lib);
    forall item | item in inventory
      ensures Held(item, tree, lib)
    {
      var i :| 0 <= i < |inventory| && inventory[i] == item;
      assert tracked[i] in tracked;
    }
  }

  /** Why the count matters: written over a tracked manifest, the tree would fail its own check unless
      the two manifests share a digest. */
  lemma TrackedManifestWouldFail(tracked: seq<string>, files: map<string, Bytes>, frozenThrough: string, lib: Library)
    requires lib.JsonRoundTrips()
    requires forall p | p in tracked :: p in files
    requires MANIFEST in tracked
    ensures var tree := TreeOf(tracked, files, frozenThrough, lib);
            ProblemsOf(tree, lib) == [] <==> lib.sha(tree[MANIFEST]) == lib.sha(files[MANIFEST])
  {
    var tree := TreeOf(tracked, files, frozenThrough, lib);
    var inventory := InventoryOf(tracked, files, lib);
    CleanIff(tree, lib);
    var k :| 0 <= k < |tracked| && tracked[k] == MANIFEST;
    assert inventory[k] in inventory;
    if lib.sha(tree[MANIFEST]) == lib.sha(files[MANIFEST]) {
      forall item | item in inventory
        ensures Held(item, tree, lib)
      {
        var i :| 0 <= i < |inventory| && inventory[i] == item;
        assert tracked[i] in tracked;
      }
    }
  }

  /** The path is a migration's, named past the frozen end. */
  ghost predicate BeyondFloor(path: string, name: string, frozenThrough: string) {
    path == "infrastructure/database/migrations/" + name && SqlPath(path) && Less(frozenThrough, name)
  }

  ghost predicate SqlPath(path: string) {
    exists stem :: path == stem + ".sql"
  }

  lemma BeyondFloorIff(p: string, frozenThrough: string)
    ensures (exists name :: BeyondFloor(p, name, frozenThrough)) <==> IsMigration(p) && !AtMost(p[|MIGRATIONS|..], frozenThrough)
    ensures IsMigration(p) ==> p == "infrastructure/database/migrations/" + p[|MIGRATIONS|..] && SqlPath(p)
    ensures forall name | BeyondFloor(p, name, frozenThrough) :: IsMigration(p) && name == p[|MIGRATIONS|..]
  {
    if IsMigration(p) {
      var name := p[|MIGRATIONS|..];
      assert p == p[..|p| - 4] + ".sql" && p == MIGRATIONS + name;
      AtMostTotal(name, frozenThrough);
      if !AtMost(name, frozenThrough) {
        assert BeyondFloor(p, name, frozenThrough);
      }
    }
    forall name | BeyondFloor(p, name, frozenThrough)
      ensures IsMigration(p) && name == p[|MIGRATIONS|..] && !AtMost(name, frozenThrough)
    {
      var stem :| p == stem + ".sql";
      assert p[|p| - 4..] == ".sql" && p[..|MIGRATIONS|] == MIGRATIONS && p[|MIGRATIONS|..] == name;
      AtMostTotal(name, frozenThrough);
    }
  }

  /** An export is refused for its names, its credentials, a migration beyond the floor, a repeated
      path or a tracked manifest, and for nothing else. */
  lemma ExportedIff(tracked: seq<string>, files: map<string, Bytes>, frozenThrough: string, rules: Rules, lib: Library)
    requires forall p | p in tracked :: p in files
    ensures ExportOf(tracked, files, frozenThrough, rules, lib).Exported?
            <==> && (forall p | p in tracked :: !rules.forbidden(p) && !rules.credential(p, files[p]))
                 && (forall p | p in tracked :: !exists name :: BeyondFloor(p, name, frozenThrough))
                 && Distinct(tracked) && "DELIVERY_MANIFEST.json" !in tracked
  {
    forall p | p in tracked
      ensures (exists name :: BeyondFloor(p, name, frozenThrough)) <==> IsMigration(p) && !AtMost(p[|MIGRATIONS|..], frozenThrough)
    {
      BeyondFloorIff(p, frozenThrough);
    }
    ForbiddenNone(tracked, rules);
    CredentialNone(tracked, files, rules);
    SortSorts(tracked);
    NewerNone(Sort(tracked), frozenThrough);
    ZipCountIff(tracked, files, frozenThrough, lib);
  }

  /** The path is listed at a place where none before it fails the test. */
  ghost predicate FirstListed(tracked: seq<string>, path: string, failing: set<string>) {
    exists i :: 0 <= i < |tracked| && tracked[i] == path && path in failing && forall j | 0 <= j < i :: tracked[j] !in failing
  }

  lemma {:induction false} FirstForbiddenIsFirst(tracked: seq<string>, rules: Rules, path: string)
    requires FirstForbidden(tracked, rules) == Some(path)
    ensures FirstListed(tracked, path, set p | p in tracked && rules.forbidden(p))
  {
    if rules.forbidden(tracked[0]) {
      assert tracked[0] in tracked;
    } else {
      FirstForbiddenIsFirst(tracked[1..], rules, path);
      var tail := set p | p in tracked[1..] && rules.forbidden(p);
      var i :| 0 <= i < |tracked[1..]| && tracked[1..][i] == path && path in tail && forall j | 0 <= j < i :: tracked[1..][j] !in tail;
      FirstAfterOne(tracked, path, tail, (set p | p in tracked && rules.forbidden(p)), i);
    }
  }

  lemma FirstAfterOne(tracked: seq<string>, path: string, tail: set<string>, all: set<string>, i: nat)
    requires tracked != [] && tracked[0] !in all && tail <= all && (forall p | p in all :: p in tail)
    requires i < |tracked[1..]| && tracked[1..][i] == path && path in tail && forall j | 0 <= j < i :: tracked[1..][j] !in tail
    ensures FirstListed(tracked, path, all)
  {
    forall j | 0 <= j < i + 1
      ensures tracked[j] !in all
    {
      assert j > 0 ==> tracked[1..][if j > 0 then j - 1 else 0] == tracked[j];
    }
    assert tracked[i + 1] == path;
  }

  lemma {:induction false} FirstCredentialIsFirst(tracked: seq<string>, files: map<string, Bytes>, rules: Rules, path: string)
    requires (forall p | p in tracked :: p in files) && FirstCredential(tracked, files, rules) == Some(path)
    ensures FirstListed(tracked, path, set p | p in tracked && rules.credential(p, files[p]))
  {
    if rules.credential(tracked[0], files[tracked[0]]) {
      assert tracked[0] in tracked;
    } else {
      FirstCredentialIsFirst(tracked[1..], files, rules, path);
      var tail := set p | p in tracked[1..] && rules.credential(p, files[p]);
      var i :| 0 <= i < |tracked[1..]| && tracked[1..][i] == path && path in tail && forall j | 0 <= j < i :: tracked[1..][j] !in tail;
      FirstAfterOne(tracked, path, tail, (set p | p in tracked && rules.credential(p, files[p])), i);
    }
  }

  lemma {:induction false} NewerNames(paths: seq<string>, frozenThrough: string)
    ensures forall n :: n in Newer(paths, frozenThrough) <==> exists p :: p in paths && BeyondFloor(p, n, frozenThrough)
  {
    if paths != [] {
      NewerNames(paths[1..], frozenThrough);
      BeyondFloorIff(paths[0], frozenThrough);
      assert paths == [paths[0]] + paths[1..];
      AtMostTotal(paths[0][if IsMigration(paths[0]) then |MIGRATIONS| else 0..], frozenThrough);
    }
  }

  lemma {:induction false} SameHead(head: string, a: string, b: string)
    ensures AtMost(head + a, head + b) <==> AtMost(a, b)
  {
    if head == "" {
      assert head + a == a && head + b == b;
    } else {
      assert (head + a)[1..] == head[1..] + a && (head + b)[1..] == head[1..] + b;
      assert head + a == [head[0]] + (head[1..] + a) && head + b == [head[0]] + (head[1..] + b);
      SameHead(head[1..], a, b);
    }
  }

  lemma {:induction false} NewerSorted(paths: seq<string>, frozenThrough: string)
    requires Sorted(paths)
    ensures Sorted(Newer(paths, frozenThrough))
  {
    if paths != [] {
      var rest := Newer(paths[1..], frozenThrough);
      NewerSorted(paths[1..], frozenThrough);
      NewerNames(paths[1..], frozenThrough);
      forall i | 0 <= i < |rest| && IsMigration(paths[0])
        ensures AtMost(paths[0][|MIGRATIONS|..], rest[i])
      {
        assert rest[i] in rest;
        var p :| p in paths[1..] && BeyondFloor(p, rest[i], frozenThrough);
        LaterBeyondFloor(paths, p, rest[i], frozenThrough);
      }
    }
  }

  lemma LaterBeyondFloor(paths: seq<string>, p: string, n: string, frozenThrough: string)
    requires Sorted(paths) && paths != [] && IsMigration(paths[0]) && p in paths[1..] && BeyondFloor(p, n, frozenThrough)
    ensures AtMost(paths[0][|MIGRATIONS|..], n)
  {
    var j :| 0 <= j < |paths[1..]| && paths[1..][j] == p;
    assert AtMost(Self(paths[0]), Self(paths[j + 1]));
    assert paths[0] == MIGRATIONS + paths[0][|MIGRATIONS|..] && p == MIGRATIONS + n;
    SameHead(MIGRATIONS, paths[0][|MIGRATIONS|..], n);
  }

  /** Why an export is refused: the first forbidden name; else the first file with a credential; else the
      migrations past the frozen end, all of them in name order; else the count of the zip's entries. */
  ghost predicate RefusalDue(tracked: seq<string>, files: map<string, Bytes>, frozenThrough: string, rules: Rules, why: Refusal)
    requires forall p | p in tracked :: p in files
  {
    var forbidden := set p | p in tracked && rules.forbidden(p);
    var credentials := set p | p in tracked && rules.credential(p, files[p]);
    match why
    case ForbiddenName(path) => FirstListed(tracked, path, forbidden)
    case Credential(path) => forbidden == {} && FirstListed(tracked, path, credentials)
    case Unfrozen(names) =>
      && forbidden == {} && credentials == {} && names != [] && Sorted(names)
      && forall n :: n in names <==> exists p :: p in tracked && BeyondFloor(p, n, frozenThrough)
    case ZipCount(entries, inventory) =>
      && forbidden == {} && credentials == {} && (forall p, n | p in tracked :: !BeyondFloor(p, n, frozenThrough))
      && inventory == |tracked| && entries == |Members(tracked) + {"DELIVERY_MANIFEST.json"}| && entries != inventory + 1
  }

  lemma RefusalIsDue(tracked: seq<string>, files: map<string, Bytes>, frozenThrough: string, rules: Rules, lib: Library)
    requires forall p | p in tracked :: p in files
    requires ExportOf(tracked, files, frozenThrough, rules, lib).Refused?
    ensures RefusalDue(tracked, files, frozenThrough, rules, ExportOf(tracked, files, frozenThrough, rules, lib).why)
  {
    var why := ExportOf(tracked, files, frozenThrough, rules, lib).why;
    ForbiddenNone(tracked, rules);
    CredentialNone(tracked, files, rules);
    SortSorts(tracked);
    NewerNames(Sort(tracked), frozenThrough);
    NewerSorted(Sort(tracked), frozenThrough);
    match why
    case ForbiddenName(path) => FirstForbiddenIsFirst(tracked, rules, path);
    case Credential(path) => FirstCredentialIsFirst(tracked, files, rules, path);
    case Unfrozen(names) =>
    case ZipCount(entries, count) =>
      var tree := TreeOf(tracked, files, frozenThrough, lib);
      assert tree.Keys == Members(tracked) + {MANIFEST} && |tree| == |tree.Keys|;
      NothingNewer(Sort(tracked), frozenThrough);
  }

  lemma NothingNewer(paths: seq<string>, frozenThrough: string)
    requires Newer(paths, frozenThrough) == []
    ensures forall p, n | p in paths :: !BeyondFloor(p, n, frozenThrough)
  {
    NewerNames(paths, frozenThrough);
    forall p, n | p in paths
      ensures !BeyondFloor(p, n, frozenThrough)
    {
      assert n !in Newer(paths, frozenThrough);
    }
  }

  lemma {:induction false} ForbiddenNone(tracked: seq<string>, rules: Rules)
    ensures FirstForbidden(tracked, rules).None? <==> forall p | p in tracked :: !rules.forbidden(p)
  {
    if tracked != [] {
      ForbiddenNone(tracked[1..], rules);
      assert tracked == [tracked[0]] + tracked[1..];
    }
  }

  lemma {:induction false} CredentialNone(tracked: seq<string>, files: map<string, Bytes>, rules: Rules)
    requires forall p | p in tracked :: p in files
    ensures FirstCredential(tracked, files, rules).None? <==> forall p | p in tracked :: !rules.credential(p, files[p])
  {
    if tracked != [] {
      CredentialNone(tracked[1..], files, rules);
      assert tracked == [tracked[0]] + tracked[1..];
    }
  }

  lemma {:induction false} NewerNone(paths: seq<string>, frozenThrough: string)
    ensures Newer(paths, frozenThrough) == [] <==> forall p | p in paths && IsMigration(p) :: AtMost(p[|MIGRATIONS|..], frozenThrough)
  {
    if paths != [] {
      NewerNone(paths[1..], frozenThrough);
      assert paths == [paths[0]] + paths[1..];
      if IsMigration(paths[0]) {
        AtMostTotal(paths[0][|MIGRATIONS|..], frozenThrough);
      }
    }
  }

  // ---- the tree hash pins the content ----------------------------------------------------------------

  /** What the text under the tree hash records of an item. */
  function Recorded(item: Item): (string, string) { (item.path, item.sha256) }

  /** Newline-free paths and digests, all digests as wide as one another. */
  predicate Readable(inventory: seq<Item>, width: nat) {
    forall item | item in inventory :: '\n' !in item.path && '\n' !in item.sha256 && |item.sha256| == width
  }

  /** A line is the path, a colon and the digest: split at the colons, the last piece is the digest and
      the others are the path's. */
  lemma LineReadsBack(item: Item)
    requires ':' !in item.sha256
    ensures var pieces := Split(LineOf(item), ":");
            pieces != [] && pieces[|pieces| - 1] == item.sha256 && Join(pieces[..|pieces| - 1], ":") == item.path
  {
    SplitBeforeLast(item.path, item.sha256);
  }

  lemma {:induction false} SplitBeforeLast(front: string, last: string)
    requires ':' !in last
    ensures var pieces := Split(front + ":" + last, ":");
            |pieces| > 1 && pieces[|pieces| - 1] == last && Join(pieces[..|pieces| - 1], ":") == front
  {
    var pieces := Split(front, ":");
    SplitNotEmpty(front, ":");
    SplitThenJoin(front, ":");
    PiecesHoldNoSeparator(front, ":");
    LacksCharacter(last, ':');
    JoinAppend(pieces, last, ":");
    JoinThenSplit(pieces + [last], ":");
    assert (pieces + [last])[..|pieces|] == pieces;
  }

  lemma {:induction false} JoinAppend(pieces: seq<string>, last: string, separator: string)
    requires pieces != []
    ensures Join(pieces + [last], separator) == Join(pieces, separator) + separator + last
  {
    if |pieces| == 1 {
      assert (pieces + [last])[1..] == [last];
    } else {
      JoinAppend(pieces[1..], last, separator);
      assert (pieces + [last])[1..] == pieces[1..] + [last];
      assert pieces[0] + separator + (Join(pieces[1..], separator) + separator + last)
          == (pieces[0] + separator + Join(pieces[1..], separator)) + separator + last;
    }
  }

  /** The text is the lines, one an item, in order. */
  lemma TreeTextReadsBack(inventory: seq<Item>, width: nat)
    requires inventory != [] && Readable(inventory, width)
    ensures Split(TreeText(inventory), "\n") == LinesOf(inventory)
  {
    forall x | x in LinesOf(inventory)
      ensures !Contains(x, "\n")
    {
      PlainLines(inventory, width);
      LacksCharacter(x, '\n');
    }
    JoinThenSplit(LinesOf(inventory), "\n");
  }

  lemma LineInjective(a: Item, b: Item)
    requires LineOf(a) == LineOf(b) && |a.sha256| == |b.sha256|
    ensures Recorded(a) == Recorded(b)
  {
    var line := LineOf(a);
    assert |a.path| == |b.path|;
    assert line[..|a.path|] == a.path && line[..|b.path|] == b.path;
    assert line[|a.path| + 1..] == a.sha256 && line[|b.path| + 1..] == b.sha256;
  }

  /** The text under the tree hash can be read back: it determines every path and digest, in order. */
  lemma TreeTextInjective(a: seq<Item>, b: seq<Item>, width: nat)
    requires Readable(a, width) && Readable(b, width)
    ensures TreeText(a) == TreeText(b)
            <==> |a| == |b| && forall i | 0 <= i < |a| :: Recorded(a[i]) == Recorded(b[i])
  {
    var xs, ys := LinesOf(a), LinesOf(b);
    if TreeText(a) == TreeText(b) {
      PlainLines(a, width);
      PlainLines(b, width);
      JoinLinesInjective(xs, ys);
      assert |a| == |xs| == |ys| == |b|;
      forall i | 0 <= i < |a|
        ensures Recorded(a[i]) == Recorded(b[i])
      {
        assert xs[i] == ys[i];
        assert a[i] in a && b[i] in b;
        LineInjective(a[i], b[i]);
      }
    }
    if |a| == |b| && forall i | 0 <= i < |a| :: Recorded(a[i]) == Recorded(b[i]) {
      forall i | 0 <= i < |a|
        ensures xs[i] == ys[i]
      {
        assert Recorded(a[i]) == Recorded(b[i]);
      }
      assert xs == ys;
    }
  }

  lemma PlainLines(inventory: seq<Item>, width: nat)
    requires Readable(inventory, width)
    ensures forall x | x in LinesOf(inventory) :: x != "" && '\n' !in x
  {
    var lines := LinesOf(inventory);
    forall x | x in lines
      ensures x != "" && '\n' !in x
    {
      var i :| 0 <= i < |lines| && lines[i] == x;
      assert inventory[i] in inventory;
    }
  }

  /** A newline in a path breaks it: one file and two can share a text. */
  lemma NewlinePathCollides(p: string, d: string, q: string, e: string)
    ensures TreeText([Item(p + ":" + d + "\n" + q, e, 0)]) == TreeText([Item(p, d, 0), Item(q, e, 0)])
  {
    var one, two := LinesOf([Item(p + ":" + d + "\n" + q, e, 0)]), LinesOf([Item(p, d, 0), Item(q, e, 0)]);
    assert two[1..] == [q + ":" + e];
    assert Join(two[1..], "\n") == q + ":" + e;
    assert Join(two, "\n") == (p + ":" + d) + "\n" + (q + ":" + e);
    assert one == [(p + ":" + d + "\n" + q) + ":" + e];
    assert (p + ":" + d + "\n" + q) + ":" + e == (p + ":" + d) + "\n" + (q + ":" + e);
  }

  /** Two listings, each over its own files, have the same text exactly when they list the same paths
      in the same order at the same digests. */
  lemma TreeTextFollowsTheListing(p: seq<string>, x: map<string, Bytes>, q: seq<string>, y: map<string, Bytes>, lib: Library, width: nat)
    requires (forall f | f in p :: f in x) && forall f | f in q :: f in y
    requires Readable(InventoryOf(p, x, lib), width) && Readable(InventoryOf(q, y, lib), width)
    ensures TreeText(InventoryOf(p, x, lib)) == TreeText(InventoryOf(q, y, lib))
       <==> p == q && forall f | f in p :: lib.sha(x[f]) == lib.sha(y[f])
  {
    var a, b := InventoryOf(p, x, lib), InventoryOf(q, y, lib);
    TreeTextInjective(a, b, width);
    if TreeText(a) == TreeText(b) {
      forall i | 0 <= i < |p|
        ensures p[i] == q[i] && lib.sha(x[p[i]]) == lib.sha(y[p[i]])
      {
        assert Recorded(a[i]) == Recorded(b[i]);
      }
    }
    if p == q && forall f | f in p :: lib.sha(x[f]) == lib.sha(y[f]) {
      forall i | 0 <= i < |a|
        ensures Recorded(a[i]) == Recorded(b[i])
      {
        assert p[i] in p;
      }
    }
  }

  /** The order of the paths in the version-control index: by the bytes of their UTF-8, which is by code
      point. */
  predicate Before(a: string, b: string) {
    b != "" && (a == "" || a[0] < b[0] || (a[0] == b[0] && Before(a[1..], b[1..])))
  }

  lemma {:induction false} BeforeIsStrict(a: string, b: string)
    requires Before(a, b)
    ensures a != b && !Before(b, a)
  {
    if a != "" && a[0] == b[0] {
      BeforeIsStrict(a[1..], b[1..]);
    }
  }

  ghost predicate InPathOrder(listing: seq<string>) {
    forall i, j | 0 <= i < j < |listing| :: Before(listing[i], listing[j])
  }

  /** A set of paths has one listing in path order. */
  lemma {:induction false} OneListing(p: seq<string>, q: seq<string>)
    requires InPathOrder(p) && InPathOrder(q)
    requires forall f :: f in p <==> f in q
    ensures p == q
  {
    if p == [] {
      if q != [] {
        FirstIsFirst(q, p);
      }
    } else {
      FirstIsFirst(p, q);
      TailMembers(p);
      TailMembers(q);
      OneListing(p[1..], q[1..]);
      assert p == [p[0]] + p[1..] && q == [q[0]] + q[1..];
    }
  }

  lemma FirstIsFirst(p: seq<string>, q: seq<string>)
    requires InPathOrder(p) && InPathOrder(q) && p != []
    requires forall f :: f in p <==> f in q
    ensures q != [] && q[0] == p[0]
  {
    assert p[0] in q && q[0] in p;
    var i :| 0 <= i < |q| && q[i] == p[0];
    var j :| 0 <= j < |p| && p[j] == q[0];
    if i > 0 && j > 0 {
      BeforeIsStrict(q[0], q[i]);
    }
  }

  lemma TailMembers(p: seq<string>)
    requires InPathOrder(p) && p != []
    ensures InPathOrder(p[1..])
    ensures forall f :: f in p[1..] <==> f in p && f != p[0]
  {
    forall f
      ensures f in p[1..] <==> f in p && f != p[0]
    {
      if f in p[1..] {
        var i :| 0 <= i < |p[1..]| && p[1..][i] == f;
        BeforeIsStrict(p[0], p[i + 1]);
      }
    }
  }

  /** The tree hash as documented: over listings sorted by path, however each tree came about, the texts
      are the same exactly when the trees hold the same paths at the same digests. */
  lemma SameTreeSameText(p: seq<string>, x: map<string, Bytes>, q: seq<string>, y: map<string, Bytes>, lib: Library, width: nat)
    requires (forall f | f in p :: f in x) && forall f | f in q :: f in y
    requires Readable(InventoryOf(p, x, lib), width) && Readable(InventoryOf(q, y, lib), width)
    requires InPathOrder(p) && InPathOrder(q)
    ensures TreeText(InventoryOf(p, x, lib)) == TreeText(InventoryOf(q, y, lib))
       <==> (forall f :: f in p <==> f in q) && forall f | f in p :: lib.sha(x[f]) == lib.sha(y[f])
  {
    TreeTextFollowsTheListing(p, x, q, y, lib, width);
    if forall f :: f in p <==> f in q {
      OneListing(p, q);
    }
  }

  /** And so are the tree hashes of what two exports deliver, in content: unless the hash collides on the
      two texts or on the bytes of a common path, equal hashes and equal trees are one. */
  lemma SameTreeSameHash(p: seq<string>, x: map<string, Bytes>, q: seq<string>, y: map<string, Bytes>, lib: Library, width: nat, floorX: string, floorY: string)
    requires (forall f | f in p :: f in x) && forall f | f in q :: f in y
    requires Readable(InventoryOf(p, x, lib), width) && Readable(InventoryOf(q, y, lib), width)
    requires InPathOrder(p) && InPathOrder(q)
    requires forall f | f in p && f in q :: lib.NoCollision(x[f], y[f])
    requires var s, t := TreeText(InventoryOf(p, x, lib)), TreeText(InventoryOf(q, y, lib)); lib.TextDigest(s) == lib.TextDigest(t) ==> s == t
    ensures DeliveryOf(InventoryOf(p, x, lib), floorX, lib).treeHash == DeliveryOf(InventoryOf(q, y, lib), floorY, lib).treeHash
       <==> CopyOf(p, x) == CopyOf(q, y)
  {
    SameTreeSameText(p, x, q, y, lib, width);
    var a, b := CopyOf(p, x), CopyOf(q, y);
    if (forall f :: f in p <==> f in q) && forall f | f in p :: lib.sha(x[f]) == lib.sha(y[f]) {
      assert forall f | f in p :: x[f] == y[f];
      assert a == b;
    }
    if a == b {
      forall f
        ensures f in p <==> f in q
      {
        assert f in a.Keys <==> f in b.Keys;
      }
      forall f | f in p
        ensures x[f] == y[f]
      {
        assert a[f] == b[f];
      }
    }
  }

  /** Two trees that verify clean under the same tree hash hold the same bytes at every inventory path,
      as long as SHA-256 does not collide on what they hold. */
  lemma SameTreeHashSameContent(x: map<string, Bytes>, y: map<string, Bytes>, lib: Library, width: nat, path: string)
    requires MANIFEST in x && MANIFEST in y
    requires ProblemsOf(x, lib) == [] && ProblemsOf(y, lib) == []
    requires var a, b := lib.parse(x[MANIFEST]), lib.parse(y[MANIFEST]);
             && a.treeHash == b.treeHash && Readable(a.inventory, width) && Readable(b.inventory, width)
             && (lib.TextDigest(TreeText(a.inventory)) == lib.TextDigest(TreeText(b.inventory)) ==> TreeText(a.inventory) == TreeText(b.inventory))
    requires path in x && path in y ==> lib.NoCollision(x[path], y[path])
    ensures var a, b := lib.parse(x[MANIFEST]).inventory, lib.parse(y[MANIFEST]).inventory;
            && ((exists item :: item in a && item.path == path) <==> (exists item :: item in b && item.path == path))
            && ((exists item :: item in a && item.path == path) ==> path in x && path in y && x[path] == y[path])
  {
    var a, b := lib.parse(x[MANIFEST]).inventory, lib.parse(y[MANIFEST]).inventory;
    CleanIff(x, lib);
    CleanIff(y, lib);
    TreeTextInjective(a, b, width);
    if item :| item in a && item.path == path {
      var i :| 0 <= i < |a| && a[i] == item;
      assert Recorded(a[i]) == Recorded(b[i]);
      assert b[i] in b && Held(a[i], x, lib) && Held(b[i], y, lib);
    }
    if item :| item in b && item.path == path {
      var i :| 0 <= i < |b| && b[i] == item;
      assert Recorded(a[i]) == Recorded(b[i]);
      assert a[i] in a;
    }
  }

  // ---- what the verifier reports on any disk -----------------------------------------------------------

  /** When each problem is due: only of a disk that carries a delivery manifest. */
  ghost predicate Due(disk: map<string, Bytes>, lib: Library, problem: Problem) {
    && "DELIVERY_MANIFEST.json" in disk
    && var m := lib.parse(disk["DELIVERY_MANIFEST.json"]);
    match problem
    case Missing(path) => path !in disk && exists item :: item in m.inventory && item.path == path
    case Altered(path) => path in disk && exists item :: item in m.inventory && item.path == path && lib.sha(disk[path]) != item.sha256
    case TreeHash => lib.sha(lib.utf8(TreeText(m.inventory))) != m.treeHash
  }

  /** On any disk each problem is reported exactly when it is due. */
  lemma ReportedIffDue(disk: map<string, Bytes>, lib: Library, problem: Problem)
    ensures problem in ProblemsOf(disk, lib) <==> Due(disk, lib, problem)
  {
    if MANIFEST in disk {
      var m := lib.parse(disk[MANIFEST]);
      ReportedIff(m.inventory, disk, lib, problem);
    }
  }

  /** On any disk nothing is reported exactly when there is no delivery manifest, or every entry's file is
      on disk at the digest recorded for it and the recomputed tree hash is the recorded one. */
  lemma ArchivePassesIff(disk: map<string, Bytes>, lib: Library)
    ensures ProblemsOf(disk, lib) == []
       <==> || "DELIVERY_MANIFEST.json" !in disk
            || (var m := lib.parse(disk["DELIVERY_MANIFEST.json"]);
                && (forall item | item in m.inventory :: item.path in disk && lib.sha(disk[item.path]) == item.sha256)
                && lib.sha(lib.utf8(TreeText(m.inventory))) == m.treeHash)
  {
    if MANIFEST in disk {
      CleanIff(disk, lib);
      var m := lib.parse(disk[MANIFEST]);
      assert forall item :: Held(item, disk, lib) <==> item.path in disk && lib.sha(disk[item.path]) == item.sha256;
    }
  }

  // ---- what the verifier sees ------------------------------------------------------------------------

  lemma OneItemAPath(tracked: seq<string>, files: map<string, Bytes>, lib: Library, path: string)
    requires (forall p | p in tracked :: p in files) && path in tracked
    ensures ItemOf(path, files[path], lib) in InventoryOf(tracked, files, lib)
    ensures forall item | item in InventoryOf(tracked, files, lib) && item.path == path :: item == ItemOf(path, files[path], lib)
  {
    var inventory := InventoryOf(tracked, files, lib);
    var k :| 0 <= k < |tracked| && tracked[k] == path;
    assert inventory[k] in inventory;
  }

  lemma TamperedEntryShows(tracked: seq<string>, files: map<string, Bytes>, lib: Library, disk: map<string, Bytes>, path: string)
    requires forall p | p in tracked :: p in files
    requires path in tracked && (path in disk ==> lib.NoCollision(disk[path], files[path]))
    ensures var found := EntryProblems(InventoryOf(tracked, files, lib), disk, lib);
            && (Missing(path) in found <==> path !in disk)
            && (Altered(path) in found <==> path in disk && disk[path] != files[path])
            && TreeHash !in found
  {
    var inventory := InventoryOf(tracked, files, lib);
    OneItemAPath(tracked, files, lib, path);
    ReportedIff(inventory, disk, lib, Missing(path));
    ReportedIff(inventory, disk, lib, Altered(path));
    ReportedIff(inventory, disk, lib, TreeHash);
  }

  lemma ManifestRead(tracked: seq<string>, files: map<string, Bytes>, frozenThrough: string, rules: Rules, lib: Library)
    requires lib.JsonRoundTrips()
    requires forall p | p in tracked :: p in files
    requires ExportOf(tracked, files, frozenThrough, rules, lib).Exported?
    ensures var tree := ExportOf(tracked, files, frozenThrough, rules, lib).tree;
            MANIFEST in tree && lib.parse(tree[MANIFEST]) == DeliveryOf(InventoryOf(tracked, files, lib), frozenThrough, lib)
  {
  }

  /** After an export, changing or dropping listed files is reported for exactly the files changed or
      dropped, as long as SHA-256 does not collide on them. */
  lemma TamperingShows(tracked: seq<string>, files: map<string, Bytes>, frozenThrough: string, rules: Rules, lib: Library, disk: map<string, Bytes>, path: string)
    requires lib.JsonRoundTrips()
    requires forall p | p in tracked :: p in files
    requires ExportOf(tracked, files, frozenThrough, rules, lib).Exported?
    requires MANIFEST in disk && disk[MANIFEST] == ExportOf(tracked, files, frozenThrough, rules, lib).tree[MANIFEST]
    requires path in tracked && (path in disk ==> lib.NoCollision(disk[path], files[path]))
    ensures Missing(path) in ProblemsOf(disk, lib) <==> path !in disk
    ensures Altered(path) in ProblemsOf(disk, lib) <==> path in disk && disk[path] != files[path]
    ensures TreeHash !in ProblemsOf(disk, lib)
  {
    ManifestRead(tracked, files, frozenThrough, rules, lib);
    TamperedEntryShows(tracked, files, lib, disk, path);
  }

  lemma {:induction false} ReportedIff(inventory: seq<Item>, disk: map<string, Bytes>, lib: Library, problem: Problem)
    ensures problem in EntryProblems(inventory, disk, lib)
            <==> exists item :: item in inventory && problem in EntryProblem(item, disk, lib)
  {
    if inventory != [] {
      ReportedIff(inventory[1..], disk, lib, problem);
      assert inventory == [inventory[0]] + inventory[1..];
    }
  }

  /** A file the inventory does not list is not seen: the archive can hold more than its manifest says. */
  lemma ExtraFilesGoUnseen(disk: map<string, Bytes>, lib: Library, path: string, content: Bytes)
    requires MANIFEST in disk && path != MANIFEST
    requires forall item | item in lib.parse(disk[MANIFEST]).inventory :: item.path != path
    ensures ProblemsOf(disk[path := content], lib) == ProblemsOf(disk, lib)
  {
    EntriesUnchanged(lib.parse(disk[MANIFEST]).inventory, disk, lib, path, content);
  }

  lemma {:induction false} EntriesUnchanged(inventory: seq<Item>, disk: map<string, Bytes>, lib: Library, path: string, content: Bytes)
    requires forall item | item in inventory :: item.path != path
    ensures EntryProblems(inventory, disk[path := content], lib) == EntryProblems(inventory, disk, lib)
  {
    if inventory != [] {
      assert inventory[0] in inventory;
      EntriesUnchanged(inventory[1..], disk, lib, path, content);
    }
  }
}
