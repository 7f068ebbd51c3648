/** `checkOddEvenResult`: the validator of the connected-components result file.
    Each line must be `vertex component`; the component must be 1 for an odd vertex
    and 2 for an even one. The first line that breaks a rule fails the test. */
module ResultCheck {
  import opened JavaText

  /** Why a line fails, one case per assertion of the validator. */
  datatype Failure =
    | WrongTokenCount(count: nat)               // "Malfored result: Wrong number of tokens in line."
    | Malformed                                 // a token that `Integer.parseInt` rejects
    | WrongComponent(expected: int, actual: int) // "Vertex is in wrong component."

  datatype LineVerdict = Pass | Fail(failure: Failure)

  /** The outcome of reading a whole result file: every line passed, or the index of
      the first line that failed and why. */
  datatype Verdict = Accepted | Rejected(line: nat, failure: Failure)

  /** Java's `x % 2` on an `int`: the remainder takes the sign of the dividend, so it is
      -1 for a negative odd number, where Dafny's `%` gives 1. */
  function JavaRemTwo(a: int): (r: int)
    ensures -1 <= r <= 1 && (a - r) % 2 == 0
    ensures a >= 0 ==> r >= 0
    ensures a < 0 ==> r <= 0
  {
    if a >= 0 then a % 2 else -((-a) % 2)
  }

  /** The component the validator demands for `vertex`: `vertex % 2` in Java, with 0
      replaced by 2. For a positive vertex that is the smallest positive id of the
      vertex's parity; a negative odd vertex is expected in component -1, because Java's
      remainder keeps the dividend's sign. */
  function ExpectedComponent(vertex: int): (c: int)
    ensures vertex >= 1 ==> c >= 1 && c % 2 == vertex % 2 && c <= 2
    ensures vertex < 0 && vertex % 2 == 1 ==> c == -1
    ensures vertex % 2 == 0 ==> c == 2
  {
    var should := JavaRemTwo(vertex);
    if should == 0 then 2 else should
  }

  /** The verdict on one line, with the checks in the validator's order: token count,
      then parsing the vertex and the component, then comparing the component. */
  function CheckLine(line: string): (v: LineVerdict)
  {
    var tokens := JavaSplit(line, ' ');
    if |tokens| != 2 then Fail(WrongTokenCount(|tokens|))
    else
      match (ParseInt(tokens[0]), ParseInt(tokens[1]))
      case (Some(vertex), Some(component)) =>
        if component == ExpectedComponent(vertex) then Pass
        else Fail(WrongComponent(ExpectedComponent(vertex), component))
      case _ => Fail(Malformed)
  }

  /** A line as the job writes it, `vertex component`, passes exactly when the component
      is the demanded one; otherwise it fails naming the demanded and the found component. */
  lemma CheckWrittenLine(vertex: int, component: int)
    requires IsInt(vertex) && IsInt(component)
    ensures CheckLine(Show(vertex) + " " + Show(component)) ==
      if component == ExpectedComponent(vertex) then Pass
      else Fail(WrongComponent(ExpectedComponent(vertex), component))
  {
    SplitPair(Show(vertex), Show(component), ' ');
    ParseShowRoundTrip(vertex);
    ParseShowRoundTrip(component);
  }

  /** `checkOddEvenResult(reader)` over the lines the reader returns: the loop stops at the
      first failing assertion. */
  method CheckOddEvenResult(lines: seq<string>) returns (verdict: Verdict)
    ensures verdict == Accepted <==> forall i :: 0 <= i < |lines| ==> CheckLine(lines[i]) == Pass
    ensures verdict.Rejected? ==>
      verdict.line < |lines| &&
      CheckLine(lines[verdict.line]) == Fail(verdict.failure) &&
      forall i :: 0 <= i < verdict.line ==> CheckLine(lines[i]) == Pass
  {
    var n := 0;
    while n < |lines|
      invariant 0 <= n <= |lines|
      invariant forall i :: 0 <= i < n ==> CheckLine(lines[i]) == Pass
    {
      var line := lines[n];
      var res := JavaSplit(line, ' ');
      if |res| != 2 {
        return Rejected(n, WrongTokenCount(|res|));
      }
      var vertex := ParseInt(res[0]);
      var component := ParseInt(res[1]);
      if vertex.None? || component.None? {
        return Rejected(n, Malformed);
      }
      var should := JavaRemTwo(vertex.value);
      if should == 0 {
        should := 2;
      }
      if should != component.value {
        return Rejected(n, WrongComponent(should, component.value));
      }
      n := n + 1;
    }
    return Accepted;
  }
}
