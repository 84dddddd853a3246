/**
 * The Tools page: the Fisher-Yates shuffle of the tool list and the tool
 * icon lookup. `Math.random()` results are passed in as `draws`, in the
 * order the loop asks for them.
 */
module Tools {

  import opened Icons

  /** Icons known for tool icon names; each tool's file is named after its key. */
  const ToolIcons: map<string, string> := map[
    "vscode" := Icon("vscode"),
    "docker" := Icon("docker"),
    "datagrip" := Icon("datagrip"),
    "github" := Icon("github"),
    "github-copilot" := Icon("github-copilot"),
    "cline" := Icon("cline"),
    "huggingface" := Icon("huggingface"),
    "linux" := Icon("linux"),
    "bash" := Icon("bash")
  ]

  /** The icon of a tool: its mapped path, or the default icon. */
  function ToolIcon(icon: string): (r: string)
    ensures icon in ToolIcons ==> r == ToolIcons[icon]
    ensures icon !in ToolIcons ==> r == DefaultIcon
    ensures IsIconPath(r)
  {
    forall k | k in ToolIcons
      ensures IsIconPath(ToolIcons[k])
    {
      assert ToolIcons[k] == Icon(k);
      IconIsIconPath(k);
    }
    IconOrIsIconPath(ToolIcons, icon);
    IconOr(ToolIcons, icon)
  }

  /** A draw in [0, 1) is one of the values `Math.random()` may return. */
  predicate ValidDraws(draws: seq<real>) {
    forall k :: 0 <= k < |draws| ==> 0.0 <= draws[k] < 1.0
  }

  /** A product of two positive reals is positive. */
  lemma ProductPositive(a: real, b: real)
    requires a > 0.0 && b > 0.0
    ensures a * b > 0.0
  {
  }

  /** A product of two non-negative reals is non-negative. */
  lemma ProductNonNegative(a: real, b: real)
    requires a >= 0.0 && b >= 0.0
    ensures a * b >= 0.0
  {
  }

  /** `Math.floor(r * (i + 1))`: for a draw in [0, 1) it lies in [0, i]. */
  function SwapIndex(r: real, i: nat): (j: nat)
    requires 0.0 <= r < 1.0
    ensures j <= i
  {
    var n := (i + 1) as real;
    var x := r * n;
    ProductNonNegative(r, n);
    ProductPositive(1.0 - r, n);
    assert n - x == (1.0 - r) * n;
    x.Floor
  }

  /** Exchanges two positions. */
  function Swap<T>(s: seq<T>, i: nat, j: nat): (r: seq<T>)
    requires i < |s| && j < |s|
    ensures |r| == |s|
    ensures r[i] == s[j] && r[j] == s[i]
    ensures forall m :: 0 <= m < |s| && m != i && m != j ==> r[m] == s[m]
  {
    s[i := s[j]][j := s[i]]
  }

  /** A swap only rearranges. */
  lemma SwapPermutes<T>(s: seq<T>, i: nat, j: nat)
    requires i < |s| && j < |s|
    ensures multiset(Swap(s, i, j)) == multiset(s)
  {
  }

  /**
   * The swap partners the loop picks for a list of length `n`: the `k`-th
   * draw is taken with the counter `i = n - 1 - k`.
   */
  function Choices(draws: seq<real>, n: nat): (js: seq<nat>)
    requires ValidDraws(draws)
    requires |draws| < n || |draws| == 0
    ensures |js| == |draws|
    ensures forall k :: 0 <= k < |js| ==> js[k] <= n - 1 - k
    ensures forall k :: 0 <= k < |js| ==> js[k] == SwapIndex(draws[k], n - 1 - k)
  {
    seq(|draws|, k requires 0 <= k < |draws| => SwapIndex(draws[k], n - 1 - k))
  }

  /** Every swap stays in bounds: the `k`-th partner is at most the counter `n - 1 - k`. */
  predicate InBounds(js: seq<nat>, n: nat) {
    (|js| < n || |js| == 0) && forall k :: 0 <= k < |js| ==> js[k] <= n - 1 - k
  }

  /**
   * The list after the first `k` iterations, iteration `m` swapping the
   * counter `|s| - 1 - m` with `js[m]`.
   */
  function Iterations<T>(s: seq<T>, js: seq<nat>, k: nat): (r: seq<T>)
    requires k <= |js|
    requires InBounds(js, |s|)
    ensures |r| == |s|
  {
    if k == 0 then s
    else Swap(Iterations(s, js, k - 1), |s| - k, js[k - 1])
  }

  /** Two lists hold the same elements, each as often. */
  ghost predicate SameElements<T>(a: seq<T>, b: seq<T>) {
    multiset(a) == multiset(b)
  }

  /** Having the same elements is transitive. */
  lemma SameElementsChain<T>(a: seq<T>, b: seq<T>, c: seq<T>)
    requires SameElements(a, b) && SameElements(b, c)
    ensures SameElements(a, c)
  {
  }

  /** One iteration is one swap on top of the ones before. */
  lemma IterationsUnfold<T>(s: seq<T>, js: seq<nat>, k: nat)
    requires 0 < k <= |js|
    requires InBounds(js, |s|)
    ensures |s| - k < |s| && js[k - 1] < |s|
    ensures Iterations(s, js, k) == Swap(Iterations(s, js, k - 1), |s| - k, js[k - 1])
  {
  }

  /** A single iteration only rearranges. */
  lemma IterationPermutes<T>(s: seq<T>, js: seq<nat>, k: nat)
    requires 0 < k <= |js|
    requires InBounds(js, |s|)
    ensures SameElements(Iterations(s, js, k), Iterations(s, js, k - 1))
  {
    var before := Iterations(s, js, k - 1);
    var i, j := |s| - k, js[k - 1];
    SwapPermutes(before, i, j);
    assert Iterations(s, js, k) == Swap(before, i, j);
  }

  /** However many iterations have run, the list is a rearrangement of the input. */
  lemma {:induction false} IterationsPermute<T>(s: seq<T>, js: seq<nat>, k: nat)
    requires k <= |js|
    requires InBounds(js, |s|)
    ensures SameElements(Iterations(s, js, k), s)
  {
    if k > 0 {
      IterationsPermute(s, js, k - 1);
      IterationPermutes(s, js, k);
      SameElementsChain(Iterations(s, js, k), Iterations(s, js, k - 1), s);
    }
  }

  /**
   * `shuffleArray`: copies the input and runs Fisher-Yates on the copy, the
   * counter going from the last index down to 1. The result is a
   * rearrangement of the input; a list of at most one element comes back as
   * it was.
   */
  method ShuffleArray<T>(input: seq<T>, draws: seq<real>) returns (r: seq<T>)
    requires |draws| == if |input| == 0 then 0 else |input| - 1
    requires ValidDraws(draws)
    ensures |r| == |input|
    ensures multiset(r) == multiset(input)
    ensures |input| <= 1 ==> r == input
    ensures r == Iterations(input, Choices(draws, |input|), |draws|)
  {
    ghost var js := Choices(draws, |input|);
    assert InBounds(js, |input|);
    var a := new T[|input|](k requires 0 <= k < |input| => input[k]);
    var i := |input| - 1;
    var k := 0;
    while i > 0
      invariant 0 <= k <= |draws|
      invariant i == |input| - 1 - k
      invariant InBounds(js, |input|) && |js| == |draws|
      invariant a[..] == Iterations(input, js, k)
      decreases i
    {
      var j := SwapIndex(draws[k], i);
      assert j == js[k];
      ghost var before := a[..];
      a[i], a[j] := a[j], a[i];
      assert a[..] == Swap(before, i, j);
      i := i - 1;
      k := k + 1;
    }
    r := a[..];
    IterationsPermute(input, js, k);
  }
}
