/** `merge_lines` and the choice of its merge function: the line sets read from the input
    files are combined by union, intersection or symmetric difference and then either sorted
    or listed in no particular order. */
module LineMerge {
  import opened StringOrder

  /** The three merge functions the command line can select. */
  datatype Combinator = Union | Intersection | SymmetricDifference

  /** The if/elif chain on the `--union`, `--intersect` and `--difference` flags; union
      when none is set. */
  function ChooseCombinator(union: bool, intersect: bool, difference: bool): (c: Combinator)
    ensures c == Union <==> union || (!intersect && !difference)
    ensures c == Intersection <==> !union && intersect
    ensures c == SymmetricDifference <==> !union && !intersect && difference
  {
    if union then Union
    else if intersect then Intersection
    else if difference then SymmetricDifference
    else Union
  }

  /** Why `merge_fun(*line_sets)` raises a `TypeError`: the unbound set methods need at
      least one set, and `symmetric_difference` takes exactly one set besides that. */
  datatype MergeError = NoLineSets | NotTwoLineSets

  datatype Result<T> = Ok(value: T) | Err(error: MergeError)

  function UnionAll(sets: seq<set<string>>): (r: set<string>)
    ensures forall x :: x in r <==> exists n :: 0 <= n < |sets| && x in sets[n]
  {
    if sets == [] then {}
    else
      var rest := UnionAll(sets[1..]);
      assert forall x :: x in rest <==> exists n :: 1 <= n < |sets| && x in sets[n] by {
        forall x | x in rest ensures exists n :: 1 <= n < |sets| && x in sets[n] {
          var m :| 0 <= m < |sets[1..]| && x in sets[1..][m];
          assert x in sets[m + 1];
        }
      }
      sets[0] + rest
  }

  function IntersectAll(sets: seq<set<string>>): (r: set<string>)
    requires sets != []
    ensures forall x :: x in r <==> forall n :: 0 <= n < |sets| ==> x in sets[n]
  {
    if |sets| == 1 then sets[0]
    else
      var rest := IntersectAll(sets[1..]);
      assert forall x :: x in rest <==> forall n :: 1 <= n < |sets| ==> x in sets[n] by {
        forall x | x in rest ensures forall n :: 1 <= n < |sets| ==> x in sets[n] {
          forall n | 1 <= n < |sets| ensures x in sets[n] {
            assert sets[n] == sets[1..][n - 1];
          }
        }
      }
      sets[0] * rest
  }

  /** `merge_fun(*line_sets)` for the selected merge function. */
  function Merge(c: Combinator, sets: seq<set<string>>): (r: Result<set<string>>)
    ensures r.Err? <==> sets == [] || (c == SymmetricDifference && |sets| != 2)
    ensures r.Ok? && c == Union ==>
      forall x :: x in r.value <==> exists n :: 0 <= n < |sets| && x in sets[n]
    ensures r.Ok? && c == Intersection ==>
      forall x :: x in r.value <==> forall n :: 0 <= n < |sets| ==> x in sets[n]
    ensures r.Ok? && c == SymmetricDifference ==>
      forall x :: x in r.value <==> (x in sets[0] && x !in sets[1]) || (x !in sets[0] && x in sets[1])
  {
    if sets == [] then Err(NoLineSets)
    else
      match c
      case Union => Ok(UnionAll(sets))
      case Intersection => Ok(IntersectAll(sets))
      case SymmetricDifference =>
        if |sets| != 2 then Err(NotTwoLineSets) else Ok((sets[0] - sets[1]) + (sets[1] - sets[0]))
  }

  predicate StrictlyAscending(s: seq<string>) {
    forall i, j :: 0 <= i < j < |s| ==> Less(s[i], s[j])
  }

  predicate NoDuplicates(s: seq<string>) {
    forall i, j :: 0 <= i < j < |s| ==> s[i] != s[j]
  }

  /** The least line of a non-empty set. */
  ghost function Minimum(lines: set<string>): (m: string)
    requires lines != {}
    ensures m in lines
    ensures forall x :: x in lines && x != m ==> Less(m, x)
  {
    var x :| x in lines;
    if lines == {x} then x
    else
      var rest := Minimum(lines - {x});
      MinimumStep(lines - {x}, x, rest);
      if Less(x, rest) then x else rest
  }

  lemma MinimumStep(others: set<string>, x: string, m: string)
    requires x !in others && m in others
    requires forall y :: y in others && y != m ==> Less(m, y)
    ensures Less(x, m) ==> forall y :: y in others ==> Less(x, y)
    ensures !Less(x, m) ==> Less(m, x)
  {
    LessTrichotomy(x, m);
    forall y | y in others && Less(x, m) ensures Less(x, y) {
      LessTransitive(x, m, y);
    }
  }

  /** `sorted(merged_lines)`. */
  ghost function SortedLines(lines: set<string>): (r: seq<string>)
    ensures StrictlyAscending(r)
    ensures forall x :: x in r <==> x in lines
    decreases lines
  {
    if lines == {} then []
    else
      var m := Minimum(lines);
      [m] + SortedLines(lines - {m})
  }

  /** `tuple(merged_lines)`: the iteration order of a Python set is not modelled, so this
      lists the lines in some fixed order about which nothing is promised. */
  ghost function SomeOrder(lines: set<string>): (r: seq<string>)
    ensures NoDuplicates(r)
    ensures forall x :: x in r <==> x in lines
    decreases lines
  {
    if lines == {} then []
    else
      var x :| x in lines;
      [x] + SomeOrder(lines - {x})
  }

  /** A strictly ascending sequence has no duplicates. */
  lemma AscendingHasNoDuplicates(s: seq<string>)
    requires StrictlyAscending(s)
    ensures NoDuplicates(s)
  {
    forall i, j | 0 <= i < j < |s| ensures s[i] != s[j] {
      LessIrreflexive(s[i]);
    }
  }

  /** Two strictly ascending sequences with the same elements are equal: the sorted output is
      the only ascending listing of the merged set. */
  lemma {:induction false} AscendingUnique(a: seq<string>, b: seq<string>)
    requires StrictlyAscending(a) && StrictlyAscending(b)
    requires forall x :: x in a <==> x in b
    ensures a == b
  {
    if a != [] {
      assert a[0] in b;
    }
    if b != [] {
      assert b[0] in a;
    }
    if a != [] && b != [] {
      var i :| 0 <= i < |a| && a[i] == b[0];
      var j :| 0 <= j < |b| && b[j] == a[0];
      assert i == 0 || Less(a[0], a[i]);
      assert j == 0 || Less(b[0], b[j]);
      LessAsymmetric(a[0], b[0]);
      assert a[0] == b[0];
      LessIrreflexive(a[0]);
      forall x ensures x in a[1..] <==> x in b[1..] {
        if x in a[1..] {
          var n :| 0 <= n < |a[1..]| && a[1..][n] == x;
          assert Less(a[0], a[n + 1]);
          assert x in a;
          var m :| 0 <= m < |b| && b[m] == x;
          assert b[1..][m - 1] == x;
        }
        if x in b[1..] {
          var n :| 0 <= n < |b[1..]| && b[1..][n] == x;
          assert Less(b[0], b[n + 1]);
          assert x in b;
          var m :| 0 <= m < |a| && a[m] == x;
          assert a[1..][m - 1] == x;
        }
      }
      AscendingUnique(a[1..], b[1..]);
      assert a == [a[0]] + a[1..] && b == [b[0]] + b[1..];
    }
  }

  /** `merge_lines(line_sets, merge_fun, sort)`: the merged set, sorted when `sort` is set;
      a `TypeError` of the merge function is passed on. */
  ghost function MergeLines(lineSets: seq<set<string>>, mergeFun: Combinator, sort: bool): (r: Result<seq<string>>)
    ensures r.Err? <==> Merge(mergeFun, lineSets).Err?
    ensures r.Ok? ==> NoDuplicates(r.value)
    ensures r.Ok? ==> forall x :: x in r.value <==> x in Merge(mergeFun, lineSets).value
    ensures r.Ok? && sort ==> StrictlyAscending(r.value)
  {
    match Merge(mergeFun, lineSets)
    case Err(e) => Err(e)
    case Ok(merged) =>
      if sort then
        var lines := SortedLines(merged);
        AscendingHasNoDuplicates(lines);
        Ok(lines)
      else Ok(SomeOrder(merged))
  }

  /** Sorting makes the output a function of the merged set alone. */
  lemma SortedOutputIsDetermined(lineSets: seq<set<string>>, mergeFun: Combinator, s: seq<string>)
    requires MergeLines(lineSets, mergeFun, true).Ok?
    requires StrictlyAscending(s)
    requires forall x :: x in s <==> x in Merge(mergeFun, lineSets).value
    ensures MergeLines(lineSets, mergeFun, true).value == s
  {
    AscendingUnique(MergeLines(lineSets, mergeFun, true).value, s);
  }

  /** Two mask lists, `{?l?l, ?d?d}` and `{?d?d, ?u?u}`, under each merge function. */
  lemma TwoFileScenario()
    ensures Merge(Union, [{"?l?l", "?d?d"}, {"?d?d", "?u?u"}]) == Ok({"?l?l", "?d?d", "?u?u"})
    ensures Merge(Intersection, [{"?l?l", "?d?d"}, {"?d?d", "?u?u"}]) == Ok({"?d?d"})
    ensures Merge(SymmetricDifference, [{"?l?l", "?d?d"}, {"?d?d", "?u?u"}]) == Ok({"?l?l", "?u?u"})
  {
    var a: set<string>, b: set<string> := {"?l?l", "?d?d"}, {"?d?d", "?u?u"};
    assert [a, b][1..] == [b];
    assert UnionAll([b]) == b + UnionAll([]);
    assert UnionAll([a, b]) == a + UnionAll([b]);
    assert UnionAll([]) == {};
    assert UnionAll([a, b]) == a + b;
    assert Merge(Union, [a, b]) == Ok(UnionAll([a, b]));
    assert Merge(Intersection, [a, b]) == Ok(IntersectAll([a, b]));
    assert Merge(SymmetricDifference, [a, b]) == Ok((a - b) + (b - a));
    assert "?l?l" != "?d?d" && "?d?d" != "?u?u" && "?l?l" != "?u?u";
    assert a + b == {"?l?l", "?d?d", "?u?u"};
    assert a * b == {"?d?d"};
    assert (a - b) + (b - a) == {"?l?l", "?u?u"};
  }
}
