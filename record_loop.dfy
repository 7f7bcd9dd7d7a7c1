/** The record loop both formatters share: documents `0 .. n - 1` are
    rendered one after the other and their records collected in order; the
    first rendering that raises ends the loop with that error. */
module RecordLoop {
  import opened Results

  /** The records of the first `n` documents, `render` giving each one. */
  function Rendered(render: nat -> Result<string>, n: nat): (r: Result<seq<string>>)
    ensures r.Success? ==> |r.value| == n
    decreases n
  {
    if n == 0 then Success([])
    else
      var rs :- Rendered(render, n - 1);
      var x :- render(n - 1);
      Success(rs + [x])
  }

  /** Record `k` of a finished loop is what `render` gives for document `k`. */
  lemma {:induction false} RenderedAt(render: nat -> Result<string>, n: nat, k: nat)
    requires Rendered(render, n).Success? && k < n
    ensures render(k) == Success(Rendered(render, n).value[k])
  {
    var j := n;
    while j > k + 1
      invariant k < j <= n && Rendered(render, j).Success?
      invariant Rendered(render, j).value[k] == Rendered(render, n).value[k]
    {
      Unsnoc(render, j);
      j := j - 1;
    }
    Unsnoc(render, k + 1);
  }

  /** A document that fails to render stops every loop that reaches it. */
  lemma {:induction false} FailsFrom(render: nat -> Result<string>, m: nat, n: nat)
    requires m < n && render(m).Failure?
    ensures Rendered(render, n).Failure?
  {
    if Rendered(render, m).Failure? {
      PrefixFails(render, m, n);
    } else {
      StepFails(render, m, Rendered(render, m).value);
      PrefixFails(render, m + 1, n);
    }
  }

  /** Once the loop has failed, going on changes nothing. */
  lemma {:induction false} PrefixFails(render: nat -> Result<string>, k: nat, n: nat)
    requires k <= n && Rendered(render, k).Failure?
    ensures Rendered(render, n) == Rendered(render, k)
  {
    var j := k;
    while j < n
      invariant k <= j <= n && Rendered(render, j) == Rendered(render, k)
    {
      FailStep(render, j + 1);
      j := j + 1;
    }
  }

  lemma Unsnoc(render: nat -> Result<string>, n: nat)
    requires n > 0 && Rendered(render, n).Success?
    ensures Rendered(render, n - 1).Success? && render(n - 1).Success?
    ensures Rendered(render, n).value == Rendered(render, n - 1).value + [render(n - 1).value]
  {
  }

  lemma Snoc(render: nat -> Result<string>, k: nat, recs: seq<string>, d: string)
    requires Rendered(render, k) == Success(recs) && render(k) == Success(d)
    ensures Rendered(render, k + 1) == Success(recs + [d])
  {
  }

  lemma StepFails(render: nat -> Result<string>, k: nat, recs: seq<string>)
    requires Rendered(render, k) == Success(recs) && render(k).Failure?
    ensures Rendered(render, k + 1) == Failure(render(k).error)
  {
  }

  lemma FailStep(render: nat -> Result<string>, n: nat)
    requires n > 0 && Rendered(render, n - 1).Failure?
    ensures Rendered(render, n) == Rendered(render, n - 1)
  {
  }
}
