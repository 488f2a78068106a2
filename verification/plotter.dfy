/** `Plotter.plot_function` up to the point where the expression is handed
    to the evaluator: the empty-input check and the chain of `replace` calls
    that puts the `np.` namespace in front of the six function names. */
module Plotter {
  import opened Wrappers
  import opened Text

  /** The names rewritten, in the order the replace calls run. */
  const FunctionNames: seq<string> := ["sin", "cos", "tan", "exp", "log", "sqrt"]

  /** The namespace prefix put in front of each name. */
  const Namespace := "np."

  datatype PlotError = EmptyFunction

  function PlotMessage(e: PlotError): string {
    match e
    case EmptyFunction => "Please enter a function"
  }

  predicate NonEmptyNames(names: seq<string>) {
    forall k | 0 <= k < |names| :: |names[k]| > 0
  }

  /** One `replace(name, "np." + name)` pass: the pieces between the
      occurrences it finds are rejoined with `np.` put back in front of the
      name, so the text grows by three characters per occurrence. */
  function Qualify(s: string, name: string): (r: string)
    requires |name| > 0
    ensures r == Join(Split(s, name), Namespace + name)
    ensures |r| == |s| + 3 * Count(s, name)
  {
    ReplaceIsJoinOfSplit(s, name, Namespace + name);
    Replace(s, name, Namespace + name)
  }

  /** The passes for `names`, run in order: the chain never shortens the
      text, and leaves alone a text that holds none of the names. */
  function QualifyAll(s: string, names: seq<string>): (r: string)
    requires NonEmptyNames(names)
    ensures |r| >= |s|
    ensures (forall k | 0 <= k < |names| :: !Contains(s, names[k])) ==> r == s
    decreases |names|
  {
    if |names| == 0 then s
    else
      CountZeroIffAbsent(s, names[0]);
      assert forall k | 1 <= k < |names| :: names[k] == names[1..][k - 1];
      QualifyAll(Qualify(s, names[0]), names[1..])
  }

  /** The replace chain leaves its input alone exactly when the input holds
      none of the names. */
  lemma {:induction false} QualifyAllIdentityIff(s: string, names: seq<string>)
    requires NonEmptyNames(names)
    ensures QualifyAll(s, names) == s <==> forall k | 0 <= k < |names| :: !Contains(s, names[k])
    decreases |names|
  {
    if |names| > 0 {
      var name := names[0];
      CountZeroIffAbsent(s, name);
      if Contains(s, name) {
        assert |QualifyAll(s, names)| >= |Qualify(s, name)| > |s|;
        assert Contains(s, names[0]);
      } else {
        assert Qualify(s, name) == s;
        QualifyAllIdentityIff(s, names[1..]);
        assert forall k | 1 <= k < |names| :: names[k] == names[1..][k - 1];
      }
    }
  }

  /** `plot_function` before evaluation: an empty entry is refused with
      "Please enter a function"; any other entry is rewritten by the chain,
      which changes it exactly when it mentions one of the six names. */
  function PlotFunction(expr: string): (r: Result<string, PlotError>)
    ensures r.Failure? <==> expr == ""
    ensures r.Success? ==> |r.value| >= |expr|
    ensures r.Success? ==>
      (r.value == expr <==> forall k | 0 <= k < |FunctionNames| :: !Contains(expr, FunctionNames[k]))
  {
    if expr == "" then Failure(EmptyFunction)
    else
      QualifyAllIdentityIff(expr, FunctionNames);
      Success(QualifyAll(expr, FunctionNames))
  }

  /** Plain substitution does not guarantee that every "sin" of the output
      follows "np.": for "sisin" the inserted "n" completes a bare "sin" at
      the very start of the rewritten text. */
  lemma BareSinSurvives()
    ensures PlotFunction("sisin") == Success("sinp.sin")
    ensures OccursAt("sinp.sin", "sin", 0)
  {
    var s := "sinp.sin";
    assert Qualify("sisin", "sin") == s;
    OnlySinIn();
  }

  /** None of the five names after "sin" occurs in "sinp.sin", since the
      first two characters of each never stand side by side in it, so the
      passes after the first leave it alone. */
  lemma OnlySinIn()
    ensures forall k | 1 <= k < |FunctionNames| :: !Contains("sinp.sin", FunctionNames[k])
    ensures QualifyAll("sinp.sin", FunctionNames[1..]) == "sinp.sin"
  {
    var s := "sinp.sin";
    forall k | 1 <= k < |FunctionNames|
      ensures !Contains(s, FunctionNames[k])
    {
      var name := FunctionNames[k];
      forall j | 0 <= j < |s| - 1
        ensures !(s[j] == name[0] && s[j + 1] == name[1])
      {
      }
      AbsentWithoutLeadingPair(s, name);
    }
    var rest := FunctionNames[1..];
    assert forall k | 0 <= k < |rest| :: rest[k] == FunctionNames[k + 1];
  }

  /** A token of two or more characters whose first two never stand side by
      side in `s` does not occur in `s`. */
  lemma AbsentWithoutLeadingPair(s: string, tok: string)
    requires |tok| >= 2
    requires forall j | 0 <= j < |s| - 1 :: !(s[j] == tok[0] && s[j + 1] == tok[1])
    ensures !Contains(s, tok)
  {
    forall k: nat | k <= |s|
      ensures !OccursAt(s, tok, k)
    {
      if k + |tok| <= |s| {
        assert s[k..k + |tok|][0] == s[k] && s[k..k + |tok|][1] == s[k + 1];
      }
    }
  }
}
