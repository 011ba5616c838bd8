/**
 * The computation in scripts/development/analyze_gcc_command.py:
 * `dismentle_command` splits a gcc command line into its distinct flags and
 * its distinct other operands (object files, libraries, output names), and
 * `compare` lists, sorted, what two such lists share and what each has on
 * its own.  The script prints these lists; here they are returned.
 */
module GccCommand {
  import opened Wrappers
  import opened Collections
  import opened PyStr

  /** A token `dismentle_command` keeps among the arguments rather than the files. */
  predicate IsFlag(token: string)
  {
    StartsWith(token, "-")
  }

  /** The result of `dismentle_command`: `(args, output_files)`. */
  datatype Dissection = Dissection(args: seq<string>, outputFiles: seq<string>)

  /**
   * `dismentle_command(command)`.  `None` stands for the `KeyError` that
   * `set.remove("gcc")` raises when "gcc" is not one of the tokens.
   */
  method DismentleCommand(command: string) returns (r: Option<Dissection>)
    ensures r.None? <==> "gcc" !in Words(command)
    ensures r.Some? ==> SortedListOf(r.value.args, set t | t in Words(command) && IsFlag(t))
    ensures r.Some? ==> SortedListOf(r.value.outputFiles, set t | t in Words(command) && t != "gcc" && !IsFlag(t))
    ensures r.Some? ==> Elems(r.value.args) !! Elems(r.value.outputFiles)
    ensures r.Some? ==> Elems(r.value.args) + Elems(r.value.outputFiles) == Elems(Words(command)) - {"gcc"}
  {
    var tokens := Words(command);
    var args := set t | t in tokens;
    if "gcc" !in args {
      return None;
    }
    args := args - {"gcc"};
    ghost var operands := args;

    var outputFiles: set<string> := {};
    var toVisit := args;
    while toVisit != {}
      invariant toVisit <= args
      invariant outputFiles == set t | t in args - toVisit && !IsFlag(t)
      decreases toVisit
    {
      var arg :| arg in toVisit;
      toVisit := toVisit - {arg};
      if IsFlag(arg) {
        continue;
      }
      outputFiles := outputFiles + {arg};
    }

    toVisit := outputFiles;
    while toVisit != {}
      invariant toVisit <= outputFiles
      invariant args == operands - (outputFiles - toVisit)
      decreases toVisit
    {
      var outputFile :| outputFile in toVisit;
      args := args - {outputFile};
      toVisit := toVisit - {outputFile};
    }

    assert !IsFlag("gcc") by {
      assert "gcc"[0] == 'g';
    }
    assert args == set t | t in tokens && IsFlag(t);
    var sortedArgs := SortedList(args);
    var sortedFiles := SortedList(outputFiles);
    r := Some(Dissection(sortedArgs, sortedFiles));
  }

  /** The lists `compare` prints: common, extra in the first group, extra in the second. */
  datatype Comparison = Comparison(common: seq<string>, extra1: seq<string>, extra2: seq<string>)

  /** `c` is what `compare(group1, _, group2, _)` lists. */
  ghost predicate IsComparison(group1: seq<string>, group2: seq<string>, c: Comparison)
  {
    && SortedListOf(c.common, Elems(group1) * Elems(group2))
    && SortedListOf(c.extra1, Elems(group1) - Elems(group2))
    && SortedListOf(c.extra2, Elems(group2) - Elems(group1))
  }

  /** `compare(group1, group1_name, group2, group2_name)`, with the printed lists returned. */
  method Compare(group1: seq<string>, group2: seq<string>) returns (c: Comparison)
    ensures IsComparison(group1, group2, c)
    ensures Elems(c.common) !! Elems(c.extra1) && Elems(c.common) !! Elems(c.extra2)
    ensures Elems(c.extra1) !! Elems(c.extra2)
    ensures Elems(c.common) + Elems(c.extra1) + Elems(c.extra2) == Elems(group1) + Elems(group2)
  {
    var commonArgs := SortedList(Elems(group1) * Elems(group2));
    var extra1 := SortedList(Elems(group1) - Elems(group2));
    var extra2 := SortedList(Elems(group2) - Elems(group1));
    c := Comparison(commonArgs, extra1, extra2);
  }

  /** Swapping the groups swaps the two "extra" lists and keeps the common one. */
  lemma CompareSymmetric(group1: seq<string>, group2: seq<string>, c: Comparison, d: Comparison)
    requires IsComparison(group1, group2, c)
    requires IsComparison(group2, group1, d)
    ensures d == Comparison(c.common, c.extra2, c.extra1)
  {
    SortedListUnique(d.common, c.common, Elems(group1) * Elems(group2));
    SortedListUnique(d.extra1, c.extra2, Elems(group2) - Elems(group1));
    SortedListUnique(d.extra2, c.extra1, Elems(group1) - Elems(group2));
  }

  /** The lists depend only on the sets of the groups: order and repetitions do not matter. */
  lemma CompareOnSets(group1: seq<string>, group2: seq<string>, other1: seq<string>, other2: seq<string>, c: Comparison, d: Comparison)
    requires Elems(group1) == Elems(other1) && Elems(group2) == Elems(other2)
    requires IsComparison(group1, group2, c) && IsComparison(other1, other2, d)
    ensures c == d
  {
    SortedListUnique(c.common, d.common, Elems(group1) * Elems(group2));
    SortedListUnique(c.extra1, d.extra1, Elems(group1) - Elems(group2));
    SortedListUnique(c.extra2, d.extra2, Elems(group2) - Elems(group1));
  }
}
