// `Test.summarize` and the progress line of `wst test --test-dependents`
// (workspace/commands/test.py). The test and build summary regular expressions are
// parameters: each is a search returning the matched text, if any.
module WsTest {
  import opened Wrappers
  import opened Text

  /** A test result: nothing (None or False), True, or the captured output. */
  datatype TestResult = NoResult | Succeeded | Output(text: string)

  /** How one product's result reads: its summary, whether the summary is labelled
      with the product name, and whether the result is a failure. */
  datatype Verdict = Verdict(summary: string, named: bool, fails: bool)

  /** The argument of `summarize`: one result for the current product, or a result
      per product name. */
  datatype Tests = One(result: TestResult) | PerProduct(items: seq<(string, TestResult)>)

  /** The return value: a single summary for a single result, a list for a map, or
      the TypeError the sort raises. */
  datatype Summarized =
    | Single(success: bool, summary: string)
    | Listed(success: bool, summaries: seq<string>)
    | SortRaised

  /** The lines that start with `===`. */
  function Banners(lines: seq<string>): (r: seq<string>)
    ensures forall k :: 0 <= k < |r| ==> StartsWith(r[k], "===")
    ensures forall l :: l in r ==> l in lines
  {
    if lines == [] then []
    else (if StartsWith(lines[0], "===") then [lines[0]] else []) + Banners(lines[1..])
  }

  /** A pytest run passed: once `xfailed` is removed, exactly two banner lines, the
      last without `failed` or `error`. */
  predicate BannersPass(output: string)
  {
    var b := Banners(Split(ReplaceAll(output, "xfailed", ""), "\n"));
    |b| == 2 && !Contains(b[1], "failed") && !Contains(b[1], "error")
  }

  /** The verdict on one result. */
  function Judge(t: TestResult, testRe: string -> Option<string>, buildRe: string -> Option<string>): Verdict
  {
    match t
    case NoResult => Verdict("Test failed / No output", true, true)
    case Succeeded => Verdict("Test successful / No output", true, false)
    case Output(s) =>
      if s == "" then Verdict("Test failed / No output", true, true)
      else if Contains(s, "collected 0 items") && !Contains(s, "error") then Verdict("No tests", false, false)
      else
        var summary :=
          if testRe(s).Some? then testRe(s).value
          else if buildRe(s).Some? then buildRe(s).value
          else "No test summary found in output";
        Verdict(summary, true, !BannersPass(s))
  }

  /** `append_summary` as written: with several products the summary is prefixed
      with the name it is given, which the no-tests case does not pass, so that
      prefix reads `None`. */
  function LabelAsWritten(v: Verdict, name: string, several: bool): string
  {
    if !several then v.summary else (if v.named then name else "None") + ": " + v.summary
  }

  /** `append_summary` as intended: each summary prefixed with its product name when
      there are several products. */
  function Label(v: Verdict, name: string, several: bool): (r: string)
    ensures several ==> r == name + ": " + v.summary
    ensures !several ==> r == v.summary
  {
    if !several then v.summary else name + ": " + v.summary
  }

  /** The success flag and the summaries of results taken in the given order. */
  function Report(sorted: seq<(string, TestResult)>, several: bool, asWritten: bool,
                  judge: TestResult -> Verdict): (r: (bool, seq<string>))
    ensures |r.1| == |sorted|
  {
    if sorted == [] then (true, [])
    else
      var last := sorted[|sorted| - 1];
      var prior := Report(sorted[..|sorted| - 1], several, asWritten, judge);
      var v := judge(last.1);
      (prior.0 && !v.fails, prior.1 + [if asWritten then LabelAsWritten(v, last.0, several) else Label(v, last.0, several)])
  }

  function Key(item: (string, TestResult)): string { item.0 }

  predicate HasName(items: seq<(string, TestResult)>, name: string)
  {
    exists i :: 0 <= i < |items| && items[i].0 == name
  }

  /** `sorted(product_tests, key=lambda n: n == prod_name or n)` under Python 3: the
      key is True for the current product and the name otherwise, and comparing True
      with a string raises TypeError, which happens whenever the current product is
      one of several. */
  function OrderAsWritten(items: seq<(string, TestResult)>, prodName: string): Option<seq<(string, TestResult)>>
  {
    if |items| > 1 && HasName(items, prodName) then None else Some(SortBy(items, Key))
  }

  function Others(items: seq<(string, TestResult)>, prodName: string): seq<(string, TestResult)>
  {
    if items == [] then []
    else (if items[0].0 == prodName then [] else [items[0]]) + Others(items[1..], prodName)
  }

  lemma {:induction false} OthersMembers(items: seq<(string, TestResult)>, prodName: string)
    ensures forall x :: x in Others(items, prodName) <==> x in items && x.0 != prodName
    decreases |items|
  {
    if items != [] {
      OthersMembers(items[1..], prodName);
      assert items == [items[0]] + items[1..];
    }
  }

  function Current(items: seq<(string, TestResult)>, prodName: string): (r: seq<(string, TestResult)>)
    ensures |r| <= 1
    ensures r != [] ==> r[0] in items && r[0].0 == prodName
    ensures HasName(items, prodName) <==> r != []
  {
    if items == [] then []
    else if items[0].0 == prodName then
      assert HasName(items, prodName) by { assert items[0].0 == prodName; }
      [items[0]]
    else
      var r := Current(items[1..], prodName);
      assert HasName(items, prodName) ==> HasName(items[1..], prodName) by {
        if HasName(items, prodName) {
          var i :| 0 <= i < |items| && items[i].0 == prodName;
          assert items[1..][i - 1] == items[i];
        }
      }
      assert HasName(items[1..], prodName) ==> HasName(items, prodName) by {
        if HasName(items[1..], prodName) {
          var i :| 0 <= i < |items[1..]| && items[1..][i].0 == prodName;
          assert items[i + 1] == items[1..][i];
        }
      }
      r
  }

  /** The order the key evidently means (and gives under Python 2, where True sorts
      before every string): the current product first, then the others by name. */
  function Order(items: seq<(string, TestResult)>, prodName: string): seq<(string, TestResult)>
  {
    Current(items, prodName) + SortBy(Others(items, prodName), Key)
  }

  /** The intended order puts the current product first when it is there, and then
      exactly the other products, ordered by name. */
  lemma OrderMeaning(items: seq<(string, TestResult)>, prodName: string)
    ensures var r := Order(items, prodName);
      && (HasName(items, prodName) ==> |r| > 0 && r[0].0 == prodName && r[0] in items)
      && var rest := if HasName(items, prodName) then r[1..] else r;
         SortedBy(rest, Key) && forall x :: x in rest <==> x in items && x.0 != prodName
  {
    var c := Current(items, prodName);
    var o := SortBy(Others(items, prodName), Key);
    OthersMembers(items, prodName);
    assert forall x :: x in o <==> x in multiset(o);
    assert HasName(items, prodName) ==> (c + o)[1..] == o;
  }

  /** `summarize` as written. */
  function SummaryAsWritten(tests: Tests, prodName: string, judge: TestResult -> Verdict): Summarized
  {
    var items := if tests.One? then [(prodName, tests.result)] else tests.items;
    match OrderAsWritten(items, prodName)
    case None => SortRaised
    case Some(sorted) =>
      var (ok, summaries) := Report(sorted, |items| != 1, true, judge);
      if tests.One? then Single(ok, summaries[0]) else Listed(ok, summaries)
  }

  /** `summarize` as intended: the current product first, every summary labelled
      with its product when there are several. */
  function Summary(tests: Tests, prodName: string, judge: TestResult -> Verdict): (r: Summarized)
    ensures !r.SortRaised?
    ensures tests.One? <==> r.Single?
  {
    var items := if tests.One? then [(prodName, tests.result)] else tests.items;
    var sorted := Order(items, prodName);
    var (ok, summaries) := Report(sorted, |items| != 1, false, judge);
    if tests.One? then
      assert HasName(items, prodName) by { assert items[0].0 == prodName; }
      Single(ok, summaries[0])
    else Listed(ok, summaries)
  }

  /** `Test.summarize` as written: the products sorted by the written key (which
      raises with the current product among several), then one verdict per product,
      in order, clearing the success flag on every failure. */
  method Summarize(tests: Tests, prodName: string, testRe: string -> Option<string>,
                   buildRe: string -> Option<string>) returns (r: Summarized)
    ensures r == SummaryAsWritten(tests, prodName, t => Judge(t, testRe, buildRe))
  {
    var items := if tests.One? then [(prodName, tests.result)] else tests.items;
    var order := OrderAsWritten(items, prodName);
    if order.None? {
      r := SortRaised;
      return;
    }
    var success, summaries := Verdicts(order.value, |items| != 1, testRe, buildRe);
    if tests.One? {
      r := Single(success, summaries[0]);
    } else {
      r := Listed(success, summaries);
    }
  }

  /** The loop of `summarize` over the sorted products, with the written labels. */
  method Verdicts(sorted: seq<(string, TestResult)>, several: bool, testRe: string -> Option<string>,
                  buildRe: string -> Option<string>) returns (success: bool, summaries: seq<string>)
    ensures (success, summaries) == Report(sorted, several, true, t => Judge(t, testRe, buildRe))
  {
    success := true;
    summaries := [];
    for k := 0 to |sorted|
      invariant (success, summaries) == Report(sorted[..k], several, true, t => Judge(t, testRe, buildRe))
    {
      assert sorted[..k + 1][..k] == sorted[..k];
      var (name, t) := sorted[k];
      var v := Judge(t, testRe, buildRe);
      if v.fails {
        success := false;
      }
      summaries := summaries + [LabelAsWritten(v, name, several)];
    }
    assert sorted[..|sorted|] == sorted;
  }

  /** The run succeeds exactly when no product's result is a failure. */
  lemma {:induction false} ReportSuccess(sorted: seq<(string, TestResult)>, several: bool, asWritten: bool,
                                         judge: TestResult -> Verdict)
    ensures Report(sorted, several, asWritten, judge).0 <==> forall i :: 0 <= i < |sorted| ==> !judge(sorted[i].1).fails
    decreases |sorted|
  {
    if sorted != [] {
      var prefix := sorted[..|sorted| - 1];
      ReportSuccess(prefix, several, asWritten, judge);
      assert forall i :: 0 <= i < |prefix| ==> prefix[i] == sorted[i];
    }
  }

  /** The i-th summary is the labelled verdict on the i-th product. */
  lemma {:induction false} ReportAt(sorted: seq<(string, TestResult)>, several: bool,
                                    judge: TestResult -> Verdict, i: nat)
    requires i < |sorted|
    ensures Report(sorted, several, false, judge).1[i] == Label(judge(sorted[i].1), sorted[i].0, several)
    decreases |sorted|
  {
    if i < |sorted| - 1 {
      ReportAt(sorted[..|sorted| - 1], several, judge, i);
    }
  }

  /** A single result gives its own unlabelled verdict. */
  lemma SingleResult(t: TestResult, prodName: string, judge: TestResult -> Verdict)
    ensures var v := judge(t);
      Summary(One(t), prodName, judge) == Single(!v.fails, v.summary)
  {
    var items := [(prodName, t)];
    assert Others(items, prodName) == [];
    assert Order(items, prodName) == items;
    ReportAt(items, false, judge, 0);
    ReportSuccess(items, false, false, judge);
  }

  /** With several products the current one comes first, the others follow by name,
      every summary starts with its product's name, and the run succeeds exactly when
      no product failed. */
  lemma SeveralResults(items: seq<(string, TestResult)>, prodName: string, judge: TestResult -> Verdict)
    requires |items| > 1
    ensures var sorted := Order(items, prodName);
      var r := Summary(PerProduct(items), prodName, judge);
      && r.Listed? && |r.summaries| == |sorted|
      && (HasName(items, prodName) ==> StartsWith(r.summaries[0], prodName + ": "))
      && (forall i :: 0 <= i < |sorted| ==> StartsWith(r.summaries[i], sorted[i].0 + ": "))
      && (r.success <==> forall i :: 0 <= i < |sorted| ==> !judge(sorted[i].1).fails)
  {
    var sorted := Order(items, prodName);
    OrderMeaning(items, prodName);
    ReportSuccess(sorted, true, false, judge);
    var summaries := Report(sorted, true, false, judge).1;
    forall i | 0 <= i < |sorted| ensures StartsWith(summaries[i], sorted[i].0 + ": ") {
      ReportAt(sorted, true, judge, i);
      var v := judge(sorted[i].1);
      assert summaries[i] == (sorted[i].0 + ": ") + v.summary;
    }
  }

  /** As written, a map holding the current product and another raises TypeError
      from the sort, while the intended order lists the current product first. */
  lemma CurrentAmongOthersRaises(prodName: string, other: string, t: TestResult, u: TestResult,
                                 judge: TestResult -> Verdict)
    requires other != prodName
    ensures SummaryAsWritten(PerProduct([(other, u), (prodName, t)]), prodName, judge) == SortRaised
    ensures Order([(other, u), (prodName, t)], prodName) == [(prodName, t), (other, u)]
  {
    var items := [(other, u), (prodName, t)];
    assert items[1].0 == prodName;
    assert Others(items, prodName) == [(other, u)] by {
      assert items[1..] == [(prodName, t)];
      assert items[1..][1..] == [];
      assert Others(items[1..], prodName) == [] + Others([], prodName);
    }
    assert Current(items, prodName) == [(prodName, t)] by {
      assert items[1..] == [(prodName, t)];
    }
    assert SortBy([(other, u)], Key) == [(other, u)] by {
      assert [(other, u)][..0] == [];
    }
  }

  /** Output that collected nothing and holds no `error` is an unlabelled
      no-tests verdict. */
  lemma NoTestsVerdict(testRe: string -> Option<string>, buildRe: string -> Option<string>)
    ensures Judge(Output("collected 0 items"), testRe, buildRe) == Verdict("No tests", false, false)
  {
    assert Contains("collected 0 items", "collected 0 items") by {
      assert OccursAt("collected 0 items", "collected 0 items", 0);
    }
    assert !Contains("collected 0 items", "error") by {
      assert forall k :: 0 <= k < 17 ==> "collected 0 items"[k] != 'r';
      forall j | 0 <= j ensures !OccursAt("collected 0 items", "error", j) {
        if j + 5 <= 17 {
          assert "collected 0 items"[j..j + 5][1] != "error"[1];
        }
      }
    }
  }

  /** As written, the i-th summary carries the as-written label. */
  lemma {:induction false} ReportAtAsWritten(sorted: seq<(string, TestResult)>, several: bool,
                                             judge: TestResult -> Verdict, i: nat)
    requires i < |sorted|
    ensures Report(sorted, several, true, judge).1[i] == LabelAsWritten(judge(sorted[i].1), sorted[i].0, several)
    decreases |sorted|
  {
    if i < |sorted| - 1 {
      ReportAtAsWritten(sorted[..|sorted| - 1], several, judge, i);
    }
  }

  lemma {:induction false} OthersAll(items: seq<(string, TestResult)>, prodName: string)
    requires !HasName(items, prodName)
    ensures Others(items, prodName) == items
    decreases |items|
  {
    if items != [] {
      assert items[0].0 != prodName;
      assert !HasName(items[1..], prodName) by {
        forall i | 0 <= i < |items[1..]| ensures items[1..][i].0 != prodName {
          assert items[1..][i] == items[i + 1];
        }
      }
      OthersAll(items[1..], prodName);
      assert items == [items[0]] + items[1..];
    }
  }

  /** Without the current product, the intended order is the order by name. */
  lemma OrderWithoutCurrent(items: seq<(string, TestResult)>, prodName: string)
    requires !HasName(items, prodName)
    ensures Order(items, prodName) == SortBy(items, Key)
  {
    OthersAll(items, prodName);
  }

  /** As written, a product without tests among several is reported as `None: No
      tests`. */
  lemma NoTestsUnlabelled(items: seq<(string, TestResult)>, prodName: string, judge: TestResult -> Verdict, i: nat)
    requires |items| > 1 && !HasName(items, prodName)
    requires i < |SortBy(items, Key)| && judge(SortBy(items, Key)[i].1) == Verdict("No tests", false, false)
    ensures var asWritten := SummaryAsWritten(PerProduct(items), prodName, judge);
      asWritten.Listed? && i < |asWritten.summaries| && asWritten.summaries[i] == "None: No tests"
  {
    var sorted := SortBy(items, Key);
    ListedAsWritten(items, prodName, judge, sorted);
    ReportAtAsWritten(sorted, true, judge, i);
    var v := judge(sorted[i].1);
    assert LabelAsWritten(v, sorted[i].0, true) == "None" + ": " + "No tests";
  }

  /** As intended, that product's summary carries its own name. */
  lemma NoTestsLabelled(items: seq<(string, TestResult)>, prodName: string, judge: TestResult -> Verdict, i: nat)
    requires |items| > 1 && !HasName(items, prodName)
    requires i < |SortBy(items, Key)| && judge(SortBy(items, Key)[i].1) == Verdict("No tests", false, false)
    ensures var intended := Summary(PerProduct(items), prodName, judge);
      intended.Listed? && i < |intended.summaries| && intended.summaries[i] == SortBy(items, Key)[i].0 + ": No tests"
  {
    var sorted := SortBy(items, Key);
    OrderWithoutCurrent(items, prodName);
    ListedIntended(items, prodName, judge, sorted);
    ReportAt(sorted, true, judge, i);
  }

  lemma ListedAsWritten(items: seq<(string, TestResult)>, prodName: string, judge: TestResult -> Verdict,
                        sorted: seq<(string, TestResult)>)
    requires |items| > 1 && !HasName(items, prodName) && sorted == SortBy(items, Key)
    ensures SummaryAsWritten(PerProduct(items), prodName, judge) == Listed(Report(sorted, true, true, judge).0, Report(sorted, true, true, judge).1)
  {
  }

  lemma ListedIntended(items: seq<(string, TestResult)>, prodName: string, judge: TestResult -> Verdict,
                       sorted: seq<(string, TestResult)>)
    requires |items| > 1 && sorted == Order(items, prodName)
    ensures Summary(PerProduct(items), prodName, judge) == Listed(Report(sorted, true, false, judge).0, Report(sorted, true, false, judge).1)
  {
  }

  // ---------------------------------------------------------------------------
  // The progress line

  function Remaining(all: seq<string>, completed: seq<string>): (r: seq<string>)
    ensures forall x :: x in r <==> x in all && x !in completed
  {
    if all == [] then []
    else (if all[0] in completed then [] else [all[0]]) + Remaining(all[1..], completed)
  }

  /** `show_remaining`: `None` when every product is done, else the last of the
      remaining names in order and how many more remain. */
  function ShowRemaining(completed: seq<string>, all: seq<string>): string
  {
    var remaining := SortedUnique(Remaining(all, completed));
    if |remaining| > 0 then
      var rest := remaining[..|remaining| - 1];
      remaining[|remaining| - 1] + " " + (if rest != [] then "& " + NatToString(|rest|) + " more" else "")
    else "None"
  }

  lemma {:induction false} StrictlySortedCount(s: seq<string>)
    requires StrictlySorted(s)
    ensures |set x | x in s| == |s|
    decreases |s|
  {
    if s != [] {
      var p := s[..|s| - 1];
      StrictlySortedCount(p);
      assert s == p + [s[|s| - 1]];
      assert s[|s| - 1] !in p by {
        forall k | 0 <= k < |p| ensures p[k] != s[|s| - 1] {
          assert Lt(s[k], s[|s| - 1]);
          LtIrreflexive(s[k]);
        }
      }
      assert (set x | x in s) == (set x | x in p) + {s[|s| - 1]};
    }
  }

  /** In a strictly ascending list the last element is greater than every other. */
  lemma LastIsGreatest(s: seq<string>)
    requires StrictlySorted(s) && s != []
    ensures forall x :: x in s ==> x == s[|s| - 1] || Lt(x, s[|s| - 1])
  {
    forall x | x in s ensures x == s[|s| - 1] || Lt(x, s[|s| - 1]) {
      var k :| 0 <= k < |s| && s[k] == x;
      if k < |s| - 1 { assert Lt(s[k], s[|s| - 1]); }
    }
  }

  /** The line for a non-empty ascending list of remaining names. */
  lemma LineOf(remaining: seq<string>)
    requires remaining != []
    ensures var m := remaining[|remaining| - 1];
      var rest := remaining[..|remaining| - 1];
      var line := m + " " + (if rest != [] then "& " + NatToString(|rest|) + " more" else "");
      line != "None"
  {
    var m := remaining[|remaining| - 1];
    var rest := remaining[..|remaining| - 1];
    var line := m + " " + (if rest != [] then "& " + NatToString(|rest|) + " more" else "");
    assert line[|m|] == ' ';
    assert forall j :: 0 <= j < 4 ==> "None"[j] != ' ';
  }

  /** The progress line says `None` exactly when nothing remains; otherwise it names
      the greatest remaining product and counts the other remaining ones. */
  lemma ShowRemainingMeaning(completed: seq<string>, all: seq<string>)
    ensures var line := ShowRemaining(completed, all);
      var left := set x | x in all && x !in completed;
      && (line == "None" <==> left == {})
      && (left != {} ==>
            exists m :: (m in left && (forall x :: x in left ==> x == m || Lt(x, m))
              && line == m + " " + (if |left| > 1 then "& " + NatToString(|left| - 1) + " more" else "")))
  {
    var remaining := SortedUnique(Remaining(all, completed));
    var left := set x | x in all && x !in completed;
    assert (set x | x in remaining) == left;
    StrictlySortedCount(remaining);
    if |remaining| > 0 {
      LastIsGreatest(remaining);
      LineOf(remaining);
      var m := remaining[|remaining| - 1];
      assert m in left;
    }
  }
}
