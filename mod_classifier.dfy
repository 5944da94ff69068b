/** Classification of the loaded mods: which are known to be incompatible with
    the game (matched by substring against a reference list), which remain, and
    the ordering in which both lists are shown. */
module ModClassifier {
  import opened Text

  /** Mods known to break the game, matched as case-sensitive substrings of a mod name. */
  const OutdatedMods: seq<string> := [
    "net.tnrd.zeepkist.utilities",
    "com.metalted.zeepkist.blueprints",
    "com.metalted.zeepkist.dragselect",
    "com.metalted.zeepkist.hotbar",
    "com.metalted.zeepkist.selectioncountergui",
    "com.metalted.zeepkist.notooltip",
    "com.metalted.zeepkist.uiinjector",
    "UIInjector",
    "Hotbar",
    "Selection Counter GUI",
    "BlueprintsPlus",
    "Blueprints+",
    "Blueprints",
    "Level Editor Drag Select",
    "No Tooltip",
    "RecordsMod"
  ]

  /** `refs.Any(m.Contains)`: some reference entry occurs in `m`. */
  function AnyContained(m: string, refs: seq<string>): (r: bool)
    decreases |refs|
    ensures r <==> exists k :: 0 <= k < |refs| && Contains(m, refs[k])
  {
    if refs == [] then false
    else if Contains(m, refs[0]) then true
    else
      var r := AnyContained(m, refs[1..]);
      assert forall k :: 1 <= k < |refs| ==> refs[k] == refs[1..][k - 1];
      r
  }

  /** `mods.Where(x => refs.Any(x.Contains))`: the outdated mods, in their
      order, duplicates kept. */
  function Outdated(mods: seq<string>, refs: seq<string>): (r: seq<string>)
    decreases |mods|
    ensures forall x :: x in r <==> x in mods && AnyContained(x, refs)
    ensures Subsequence(r, mods)
  {
    if mods == [] then []
    else
      var rest := Outdated(mods[1..], refs);
      assert forall x :: x in mods <==> x == mods[0] || x in mods[1..];
      if AnyContained(mods[0], refs) then
        assert ([mods[0]] + rest)[1..] == rest;
        [mods[0]] + rest
      else
        SubsequenceOfTail(rest, mods);
        rest
  }

  /** Filtering commutes with concatenation: the outdated mods of a longer log
      are those of its first part followed by those of the rest. */
  lemma {:induction false} OutdatedOfConcat(a: seq<string>, b: seq<string>, refs: seq<string>)
    ensures Outdated(a + b, refs) == Outdated(a, refs) + Outdated(b, refs)
    decreases |a|
  {
    if a == [] {
      assert a + b == b;
    } else {
      assert (a + b)[1..] == a[1..] + b;
      OutdatedOfConcat(a[1..], b, refs);
    }
  }

  /** LINQ `Except` from a running set: the elements of `xs` not in `seen`, each
      once, in order of first occurrence; every element yielded joins `seen`. */
  function ExceptFrom(xs: seq<string>, seen: set<string>): (r: seq<string>)
    decreases |xs|
    ensures forall x :: x in r <==> x in xs && x !in seen
    ensures forall i, j :: 0 <= i < j < |r| ==> r[i] != r[j]
  {
    if xs == [] then []
    else if xs[0] in seen then
      var r := ExceptFrom(xs[1..], seen);
      assert forall x :: x in xs[1..] ==> x in xs;
      r
    else
      var rest := ExceptFrom(xs[1..], seen + {xs[0]});
      var r := [xs[0]] + rest;
      assert forall x :: x in xs <==> x == xs[0] || x in xs[1..];
      assert forall j :: 1 <= j < |r| ==> r[j] == rest[j - 1];
      r
  }

  /** `xs.Except(ys)`: the distinct elements of `xs` that are not in `ys`. */
  function Except(xs: seq<string>, ys: seq<string>): seq<string> {
    ExceptFrom(xs, set y | y in ys)
  }

  /** The mods shown as installed and the mods shown as incompatible have no
      element in common and together name every loaded mod; the installed list
      names each mod once. */
  lemma CurrentAndOutdatedPartition(mods: seq<string>, refs: seq<string>)
    ensures var outdated := Outdated(mods, refs);
            var current := Except(mods, outdated);
            && (forall x :: !(x in current && x in outdated))
            && (forall x :: x in mods <==> x in current || x in outdated)
            && (forall x :: x in current <==> x in mods && !AnyContained(x, refs))
            && (forall i, j :: 0 <= i < j < |current| ==> current[i] != current[j])
  {
  }

  // ---------------------------------------------------------------------------
  // Ordering

  /** Ordinal order on strings: code unit by code unit, a proper prefix first. */
  predicate OrdinalLe(a: string, b: string)
    decreases |a|
  {
    |a| == 0 || (|b| > 0 && (a[0] < b[0] || (a[0] == b[0] && OrdinalLe(a[1..], b[1..]))))
  }

  lemma {:induction false} OrdinalTotal(a: string, b: string)
    ensures OrdinalLe(a, b) || OrdinalLe(b, a)
    decreases |a|
  {
    if |a| > 0 && |b| > 0 && a[0] == b[0] {
      OrdinalTotal(a[1..], b[1..]);
    }
  }

  lemma {:induction false} OrdinalTransitive(a: string, b: string, c: string)
    requires OrdinalLe(a, b) && OrdinalLe(b, c)
    ensures OrdinalLe(a, c)
    decreases |a|
  {
    if |a| > 0 && a[0] == b[0] && b[0] == c[0] {
      OrdinalTransitive(a[1..], b[1..], c[1..]);
    }
  }

  ghost predicate Sorted(s: seq<string>) {
    forall i, j :: 0 <= i < j < |s| ==> OrdinalLe(s[i], s[j])
  }

  /** `x` placed before the first element it does not follow. */
  function Insert(x: string, s: seq<string>): (r: seq<string>)
    decreases |s|
    ensures multiset(r) == multiset(s) + multiset{x}
  {
    if s == [] then [x]
    else if OrdinalLe(x, s[0]) then [x] + s
    else
      var rest := Insert(x, s[1..]);
      assert s == [s[0]] + s[1..];
      [s[0]] + rest
  }

  lemma {:induction false} InsertSorted(x: string, s: seq<string>)
    requires Sorted(s)
    ensures Sorted(Insert(x, s))
    decreases |s|
  {
    if s != [] {
      if OrdinalLe(x, s[0]) {
        forall y | y in s ensures OrdinalLe(x, y) {
          var j :| 0 <= j < |s| && s[j] == y;
          if j > 0 {
            OrdinalTransitive(x, s[0], s[j]);
          }
        }
        SortedCons(x, s);
      } else {
        OrdinalTotal(x, s[0]);
        InsertSorted(x, s[1..]);
        var rest := Insert(x, s[1..]);
        forall y | y in rest ensures OrdinalLe(s[0], y) {
          assert y in multiset(rest);
          if y != x {
            assert y in multiset(s[1..]);
          }
        }
        SortedCons(s[0], rest);
      }
    }
  }

  /** A sorted list stays sorted with a first element that no element precedes. */
  lemma SortedCons(x: string, s: seq<string>)
    requires Sorted(s)
    requires forall y :: y in s ==> OrdinalLe(x, y)
    ensures Sorted([x] + s)
  {
    var r := [x] + s;
    forall i, j | 0 <= i < j < |r| ensures OrdinalLe(r[i], r[j]) {
      assert r[j] == s[j - 1];
      if i > 0 {
        assert r[i] == s[i - 1];
      }
    }
  }

  /** `OrderBy(x => x)` with ordinal comparison: a sorted permutation. */
  function Sort(s: seq<string>): (r: seq<string>)
    decreases |s|
    ensures multiset(r) == multiset(s)
  {
    if s == [] then []
    else
      assert s == [s[0]] + s[1..];
      Insert(s[0], Sort(s[1..]))
  }

  lemma {:induction false} SortSorted(s: seq<string>)
    ensures Sorted(Sort(s))
    decreases |s|
  {
    if s != [] {
      SortSorted(s[1..]);
      InsertSorted(s[0], Sort(s[1..]));
    }
  }
}
