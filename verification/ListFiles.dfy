/** The breadth-first file listing: a worklist of paths over a finite directory forest. */
module ListFiles {
  import opened Sequences

  /** What `stat` finds at a path, with the listing of a directory. */
  datatype Entry =
    | File(path: string)
    | Directory(path: string, entries: seq<Entry>)
    | Other(path: string)

  type Filter = string -> bool

  function Size(entries: seq<Entry>): nat {
    if entries == [] then 0
    else 1 + (if entries[0].Directory? then Size(entries[0].entries) else 0) + Size(entries[1..])
  }

  ghost function Found(entry: Entry, filter: Filter): seq<string> {
    if entry.File? && filter(entry.path) then [entry.path] else []
  }

  /** The matching files directly among `entries`, in order. */
  ghost function Matching(entries: seq<Entry>, filter: Filter): seq<string> {
    if entries == [] then []
    else Found(entries[0], filter) + Matching(entries[1..], filter)
  }

  /** The next level: what the directories among `entries` hold, in order. */
  ghost function Children(entries: seq<Entry>): seq<Entry> {
    if entries == [] then []
    else (if entries[0].Directory? then entries[0].entries else []) + Children(entries[1..])
  }

  /** Level by level, each from left to right. */
  ghost function LevelOrder(entries: seq<Entry>, filter: Filter): seq<string>
    decreases Size(entries)
  {
    if entries == [] then []
    else
      ChildrenShrink(entries);
      Matching(entries, filter) + LevelOrder(Children(entries), filter)
  }

  lemma {:induction false} SizeAppend(a: seq<Entry>, b: seq<Entry>)
    ensures Size(a + b) == Size(a) + Size(b)
  {
    if a == [] {
      assert a + b == b;
    } else {
      assert (a + b)[1..] == a[1..] + b;
      SizeAppend(a[1..], b);
    }
  }

  lemma {:induction false} ChildrenShrink(entries: seq<Entry>)
    ensures Size(Children(entries)) <= Size(entries)
    ensures entries != [] ==> Size(Children(entries)) < Size(entries)
  {
    if entries != [] {
      ChildrenShrink(entries[1..]);
      var first := if entries[0].Directory? then entries[0].entries else [];
      SizeAppend(first, Children(entries[1..]));
    }
  }

  lemma {:induction false} MatchingAppend(a: seq<Entry>, b: seq<Entry>, filter: Filter)
    ensures Matching(a + b, filter) == Matching(a, filter) + Matching(b, filter)
  {
    if a == [] {
      assert a + b == b;
    } else {
      assert (a + b)[1..] == a[1..] + b;
      MatchingAppend(a[1..], b, filter);
    }
  }

  lemma {:induction false} ChildrenAppend(a: seq<Entry>, b: seq<Entry>)
    ensures Children(a + b) == Children(a) + Children(b)
  {
    if a == [] {
      assert a + b == b;
    } else {
      assert (a + b)[1..] == a[1..] + b;
      ChildrenAppend(a[1..], b);
    }
  }

  /** What remains to be listed when `level` is the unread part of one level and `next` the
      part of the following level queued behind it. */
  ghost function Remaining(level: seq<Entry>, next: seq<Entry>, filter: Filter): seq<string> {
    Matching(level, filter) + LevelOrder(next + Children(level), filter)
  }

  /** Where the queue is split between the two levels does not matter once the first part is
      used up. */
  lemma RemainingTurns(next: seq<Entry>, filter: Filter)
    ensures Remaining([], next, filter) == Remaining(next, [], filter) == LevelOrder(next, filter)
  {
    assert next + Children([]) == next;
    assert [] + Children(next) == Children(next);
    assert next == [] ==> Remaining(next, [], filter) == [];
  }

  lemma RemainingStep(level: seq<Entry>, next: seq<Entry>, filter: Filter)
    requires level != []
    ensures var top := level[0];
            var pushed := next + if top.Directory? then top.entries else [];
            Remaining(level, next, filter)
            == Found(top, filter) + Remaining(level[1..], pushed, filter)
  {
    var top := level[0];
    var pushed := next + if top.Directory? then top.entries else [];
    var entries := if top.Directory? then top.entries else [];
    assert Children(level) == entries + Children(level[1..]);
    ConcatAssociates(next, entries, Children(level[1..]));
    assert Matching(level, filter) == Found(top, filter) + Matching(level[1..], filter);
    ConcatAssociates(Found(top, filter), Matching(level[1..], filter), LevelOrder(next + Children(level), filter));
  }

  /** The queue after its first entry is handled. */
  ghost function Shifted(queue: seq<Entry>): seq<Entry>
    requires queue != []
  {
    queue[1..] + if queue[0].Directory? then queue[0].entries else []
  }

  /** What remains for a queue whose first `split` entries are of one level. */
  ghost function Rest(queue: seq<Entry>, split: nat, filter: Filter): seq<string>
    requires split <= |queue|
  {
    Remaining(queue[..split], queue[split..], filter)
  }

  lemma RestTurns(queue: seq<Entry>, filter: Filter)
    ensures Rest(queue, 0, filter) == Rest(queue, |queue|, filter) == LevelOrder(queue, filter)
  {
    RemainingTurns(queue, filter);
    assert queue[..0] == [] && queue[0..] == queue;
    assert queue[..|queue|] == queue && queue[|queue|..] == [];
  }

  lemma ShiftedSplit(queue: seq<Entry>, split: nat)
    requires 0 < split <= |queue|
    ensures Shifted(queue)[..split - 1] == queue[..split][1..]
    ensures Shifted(queue)[split - 1..] == queue[split..] + if queue[0].Directory? then queue[0].entries else []
  {
  }

  /** Handling the first entry lists it if it matches and keeps what else remains. */
  lemma RestStep(queue: seq<Entry>, split: nat, filter: Filter)
    requires 0 < split <= |queue|
    ensures Rest(queue, split, filter) == Found(queue[0], filter) + Rest(Shifted(queue), split - 1, filter)
  {
    var level, next := queue[..split], queue[split..];
    assert level[0] == queue[0];
    RemainingStep(level, next, filter);
    ShiftedSplit(queue, split);
  }

  /** One turn of the loop, moving on to the next level when this one is used up. */
  lemma Turn(queue: seq<Entry>, split: nat, filter: Filter) returns (split': nat)
    requires queue != [] && split <= |queue|
    ensures split' <= |Shifted(queue)|
    ensures Rest(queue, split, filter) == Found(queue[0], filter) + Rest(Shifted(queue), split', filter)
    ensures Size(Shifted(queue)) < Size(queue)
  {
    var width := if split == 0 then |queue| else split;
    RestTurns(queue, filter);
    RestStep(queue, width, filter);
    split' := width - 1;
    SizeAppend(queue[1..], if queue[0].Directory? then queue[0].entries else []);
  }

  /** The caller's array of paths: the script shifts and pushes it in place. */
  class Queue {
    var items: seq<Entry>

    constructor (items: seq<Entry>)
      ensures this.items == items
    {
      this.items := items;
    }
  }

  /** `listFilesRecursively`: the matching files level by level. The worklist is the caller's
      own array, which is left empty. */
  method ListFilesRecursively(paths: Queue, filter: Filter) returns (files: seq<string>)
    modifies paths
    ensures files == LevelOrder(old(paths.items), filter)
    ensures paths.items == []
  {
    var queue := paths;
    files := [];
    ghost var split: nat := 0;
    RestTurns(queue.items, filter);
    while |queue.items| > 0
      invariant split <= |queue.items|
      invariant files + Rest(queue.items, split, filter) == LevelOrder(old(paths.items), filter)
      decreases Size(queue.items)
    {
      ghost var before, listed := queue.items, files;
      split := Turn(queue.items, split, filter);
      var top := queue.items[0];
      queue.items := queue.items[1..];
      if top.File? {
        if filter(top.path) {
          files := files + [top.path];
        }
      } else if top.Directory? {
        queue.items := queue.items + top.entries;
      }
      assert queue.items == Shifted(before);
      assert files == listed + Found(top, filter);
      ConcatAssociates(listed, Found(top, filter), Rest(queue.items, split, filter));
    }
    RestTurns([], filter);
  }

  // ----- what level order lists

  /** Every matching file with its depth, subtree by subtree. */
  ghost function DepthFirst(entries: seq<Entry>, depth: nat, filter: Filter): seq<(string, nat)> {
    if entries == [] then []
    else
      (match entries[0]
       case File(path) => if filter(path) then [(path, depth)] else []
       case Directory(_, inner) => DepthFirst(inner, depth + 1, filter)
       case Other(_) => [])
      + DepthFirst(entries[1..], depth, filter)
  }

  ghost function AtDepth(paths: seq<string>, depth: nat): (r: seq<(string, nat)>)
    ensures |r| == |paths| && forall i :: 0 <= i < |r| ==> r[i] == (paths[i], depth)
  {
    seq(|paths|, i requires 0 <= i < |paths| => (paths[i], depth))
  }

  /** The same listing as `LevelOrder`, with depths. */
  ghost function LevelOrderDepths(entries: seq<Entry>, depth: nat, filter: Filter): seq<(string, nat)>
    decreases Size(entries)
  {
    if entries == [] then []
    else
      ChildrenShrink(entries);
      AtDepth(Matching(entries, filter), depth) + LevelOrderDepths(Children(entries), depth + 1, filter)
  }

  /** Taking the files of one level out of a depth-first listing leaves, as a multiset, the
      listing of the next level. */
  lemma {:induction false} LevelSplits(entries: seq<Entry>, depth: nat, filter: Filter)
    ensures multiset(DepthFirst(entries, depth, filter))
            == multiset(AtDepth(Matching(entries, filter), depth))
               + multiset(DepthFirst(Children(entries), depth + 1, filter))
  {
    if entries != [] {
      var first, rest := [entries[0]], entries[1..];
      LevelSplits(rest, depth, filter);
      OneEntry(entries[0], depth, filter);
      assert entries == first + rest;
      DepthFirstAppend(first, rest, depth, filter);
      MatchingAppend(first, rest, filter);
      ChildrenAppend(first, rest);
      DepthFirstAppend(Children(first), Children(rest), depth + 1, filter);
      AtDepthAppend(Matching(first, filter), Matching(rest, filter), depth);
    }
  }

  lemma AtDepthAppend(a: seq<string>, b: seq<string>, depth: nat)
    ensures AtDepth(a + b, depth) == AtDepth(a, depth) + AtDepth(b, depth)
  {
  }

  lemma OneEntry(entry: Entry, depth: nat, filter: Filter)
    ensures DepthFirst([entry], depth, filter)
            == AtDepth(Matching([entry], filter), depth) + DepthFirst(Children([entry]), depth + 1, filter)
  {
    assert Children([entry]) == if entry.Directory? then entry.entries else [];
    assert Matching([entry], filter) == Found(entry, filter);
    assert DepthFirst([entry], depth, filter) ==
        match entry
        case File(path) => if filter(path) then [(path, depth)] else []
        case Directory(_, inner) => DepthFirst(inner, depth + 1, filter)
        case Other(_) => [];
  }

  lemma {:induction false} DepthFirstAppend(a: seq<Entry>, b: seq<Entry>, depth: nat, filter: Filter)
    ensures DepthFirst(a + b, depth, filter) == DepthFirst(a, depth, filter) + DepthFirst(b, depth, filter)
  {
    if a == [] {
      assert a + b == b;
    } else {
      assert (a + b)[1..] == a[1..] + b;
      DepthFirstAppend(a[1..], b, depth, filter);
    }
  }

  /** The listing holds precisely the matching files of the forest, each as often as it occurs
      and at its own depth. */
  lemma {:induction false} ListsEveryFileOnce(entries: seq<Entry>, depth: nat, filter: Filter)
    ensures multiset(LevelOrderDepths(entries, depth, filter)) == multiset(DepthFirst(entries, depth, filter))
    decreases Size(entries)
  {
    if entries != [] {
      ChildrenShrink(entries);
      LevelSplits(entries, depth, filter);
      ListsEveryFileOnce(Children(entries), depth + 1, filter);
    }
  }

  /** The paths come in non-decreasing depth, and are the paths of the listing. */
  lemma {:induction false} DepthNeverDecreases(entries: seq<Entry>, depth: nat, filter: Filter)
    ensures Paths(LevelOrderDepths(entries, depth, filter)) == LevelOrder(entries, filter)
    ensures DepthsFrom(LevelOrderDepths(entries, depth, filter), depth)
    decreases Size(entries)
  {
    if entries != [] {
      ChildrenShrink(entries);
      DepthNeverDecreases(Children(entries), depth + 1, filter);
      LevelFirst(Matching(entries, filter), LevelOrderDepths(Children(entries), depth + 1, filter), depth);
    }
  }

  /** The files of one level before a listing of the levels below it. */
  lemma LevelFirst(files: seq<string>, below: seq<(string, nat)>, depth: nat)
    requires DepthsFrom(below, depth + 1)
    ensures Paths(AtDepth(files, depth) + below) == files + Paths(below)
    ensures DepthsFrom(AtDepth(files, depth) + below, depth)
  {
  }

  ghost function Paths(listing: seq<(string, nat)>): (r: seq<string>)
    ensures |r| == |listing| && forall i :: 0 <= i < |r| ==> r[i] == listing[i].0
  {
    seq(|listing|, i requires 0 <= i < |listing| => listing[i].0)
  }

  /** Depths start no lower than `depth` and never go down. */
  ghost predicate DepthsFrom(listing: seq<(string, nat)>, depth: nat) {
    && (forall i :: 0 <= i < |listing| ==> depth <= listing[i].1)
    && (forall i, j :: 0 <= i < j < |listing| ==> listing[i].1 <= listing[j].1)
  }

  /** The entries of a listing at one depth, in their order. */
  ghost function OfDepth(listing: seq<(string, nat)>, depth: nat): seq<(string, nat)> {
    if listing == [] then []
    else (if listing[0].1 == depth then [listing[0]] else []) + OfDepth(listing[1..], depth)
  }

  lemma {:induction false} OfDepthAppend(a: seq<(string, nat)>, b: seq<(string, nat)>, depth: nat)
    ensures OfDepth(a + b, depth) == OfDepth(a, depth) + OfDepth(b, depth)
  {
    if a == [] {
      assert a + b == b;
    } else {
      assert (a + b)[1..] == a[1..] + b && (a + b)[0] == a[0];
      OfDepthAppend(a[1..], b, depth);
      var own := if a[0].1 == depth then [a[0]] else [];
      ConcatAssociates(own, OfDepth(a[1..], depth), OfDepth(b, depth));
    }
  }

  lemma {:induction false} OfDepthUniform(listing: seq<(string, nat)>, own: nat, depth: nat)
    requires forall i :: 0 <= i < |listing| ==> listing[i].1 == own
    ensures OfDepth(listing, depth) == if own == depth then listing else []
  {
    if listing != [] {
      OfDepthUniform(listing[1..], own, depth);
    }
  }

  /** Nothing in a subtree is above its root. */
  lemma {:induction false} NothingAbove(entries: seq<Entry>, depth: nat, filter: Filter, e: nat)
    requires e < depth
    ensures OfDepth(DepthFirst(entries, depth, filter), e) == []
  {
    if entries != [] {
      var first := DepthFirst([entries[0]], depth, filter);
      assert entries == [entries[0]] + entries[1..];
      DepthFirstAppend([entries[0]], entries[1..], depth, filter);
      OfDepthAppend(first, DepthFirst(entries[1..], depth, filter), e);
      NothingAbove(entries[1..], depth, filter, e);
      OneEntry(entries[0], depth, filter);
      var own, below := AtDepth(Matching([entries[0]], filter), depth), Children([entries[0]]);
      OfDepthAppend(own, DepthFirst(below, depth + 1, filter), e);
      OfDepthUniform(own, depth, e);
      if entries[0].Directory? {
        assert below == entries[0].entries;
        NothingAbove(entries[0].entries, depth + 1, filter, e);
      }
    }
  }

  /** What a depth-first listing holds at one depth: this level's files, or what the next level's does. */
  lemma {:induction false} LevelRestricted(entries: seq<Entry>, depth: nat, filter: Filter, e: nat)
    requires depth <= e
    ensures OfDepth(DepthFirst(entries, depth, filter), e)
            == if e == depth then AtDepth(Matching(entries, filter), depth)
               else OfDepth(DepthFirst(Children(entries), depth + 1, filter), e)
  {
    if entries != [] {
      var first, rest := [entries[0]], entries[1..];
      assert entries == first + rest;
      LevelRestricted(rest, depth, filter, e);
      DepthFirstAppend(first, rest, depth, filter);
      OfDepthAppend(DepthFirst(first, depth, filter), DepthFirst(rest, depth, filter), e);
      MatchingAppend(first, rest, filter);
      AtDepthAppend(Matching(first, filter), Matching(rest, filter), depth);
      ChildrenAppend(first, rest);
      DepthFirstAppend(Children(first), Children(rest), depth + 1, filter);
      OfDepthAppend(DepthFirst(Children(first), depth + 1, filter), DepthFirst(Children(rest), depth + 1, filter), e);
      FirstRestricted(entries[0], depth, filter, e);
    }
  }

  lemma FirstRestricted(entry: Entry, depth: nat, filter: Filter, e: nat)
    requires depth <= e
    ensures OfDepth(DepthFirst([entry], depth, filter), e)
            == if e == depth then AtDepth(Matching([entry], filter), depth)
               else OfDepth(DepthFirst(Children([entry]), depth + 1, filter), e)
  {
    var own, below := AtDepth(Matching([entry], filter), depth), DepthFirst(Children([entry]), depth + 1, filter);
    OneEntry(entry, depth, filter);
    OfDepthAppend(own, below, e);
    OfDepthUniform(own, depth, e);
    if e == depth {
      NothingAbove(Children([entry]), depth + 1, filter, e);
    }
  }

  /** Each level comes from left to right: at every depth the two listings agree in order. */
  lemma {:induction false} LevelsKeepOrder(entries: seq<Entry>, depth: nat, filter: Filter, e: nat)
    requires depth <= e
    ensures OfDepth(LevelOrderDepths(entries, depth, filter), e) == OfDepth(DepthFirst(entries, depth, filter), e)
    decreases Size(entries)
  {
    if entries != [] {
      ChildrenShrink(entries);
      LevelRestricted(entries, depth, filter, e);
      var own := AtDepth(Matching(entries, filter), depth);
      var below := LevelOrderDepths(Children(entries), depth + 1, filter);
      OfDepthAppend(own, below, e);
      OfDepthUniform(own, depth, e);
      if e > depth {
        LevelsKeepOrder(Children(entries), depth + 1, filter, e);
      } else {
        DepthNeverDecreases(Children(entries), depth + 1, filter);
        BelowIsDeeper(below, depth);
      }
    }
  }

  lemma {:induction false} BelowIsDeeper(listing: seq<(string, nat)>, depth: nat)
    requires DepthsFrom(listing, depth + 1)
    ensures OfDepth(listing, depth) == []
  {
    if listing != [] {
      BelowIsDeeper(listing[1..], depth);
    }
  }
}
