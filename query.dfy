/** The two ways the process table can be narrowed: a case-insensitive
    search on the process name, and a filter on minimum CPU and memory
    percentages. Both keep the enumeration's order. */
module Query {
  import opened Text
  import opened Process

  /** A search query (already lower-cased) or a pair of thresholds. */
  datatype Criterion = NameContains(query: string) | AtLeast(cpuMin: real, memoryMin: real)

  /** Whether a process is shown under a criterion: the lower-cased query
      occurs in the lower-cased name, or both percentages reach their
      thresholds. */
  predicate Accepts(c: Criterion, info: ProcessInfo)
  {
    match c
    case NameContains(query) => Contains(Lower(info.name), query)
    case AtLeast(cpuMin, memoryMin) => info.cpu >= cpuMin && info.memory >= memoryMin
  }

  /** The criterion of a search for the text the user typed. */
  function SearchFor(text: string): Criterion
  {
    NameContains(Lower(text))
  }

  /** The row test of a criterion, as the loops of the two commands apply
      it to each process they enumerate. */
  function Test(c: Criterion): ProcessInfo -> bool
  {
    info => Accepts(c, info)
  }

  /** The processes of `infos` a row test accepts, in their order. */
  function Select(accept: ProcessInfo -> bool, infos: seq<ProcessInfo>): seq<ProcessInfo>
  {
    if |infos| == 0 then []
    else
      var last := infos[|infos| - 1];
      Select(accept, infos[..|infos| - 1]) + if accept(last) then [last] else []
  }

  /** Selecting from one more process adds it at the end when accepted. */
  lemma SelectAppend(accept: ProcessInfo -> bool, infos: seq<ProcessInfo>, info: ProcessInfo)
    ensures accept(info) ==> Select(accept, infos + [info]) == Select(accept, infos) + [info]
    ensures !accept(info) ==> Select(accept, infos + [info]) == Select(accept, infos)
  {
    assert (infos + [info])[..|infos|] == infos;
  }

  /** `a` is `b` with some elements left out and the rest in order. */
  ghost predicate Subsequence<T>(a: seq<T>, b: seq<T>)
    decreases |b|
  {
    if |a| == 0 then true
    else if |b| == 0 then false
    else if a[|a| - 1] == b[|b| - 1] then Subsequence(a[..|a| - 1], b[..|b| - 1])
    else Subsequence(a, b[..|b| - 1])
  }

  /** Appending to the longer sequence keeps a subsequence one. */
  lemma {:induction false} SubsequenceOfExtension<T>(a: seq<T>, b: seq<T>, x: T)
    requires Subsequence(a, b)
    ensures Subsequence(a, b + [x])
    decreases |b|, 1
  {
    if a != [] {
      assert (b + [x])[..|b|] == b;
      if a[|a| - 1] == x {
        SubsequenceDropLast(a, b);
      }
    }
  }

  /** Dropping the last element of a subsequence leaves a subsequence. */
  lemma {:induction false} SubsequenceDropLast<T>(a: seq<T>, b: seq<T>)
    requires a != [] && Subsequence(a, b)
    ensures Subsequence(a[..|a| - 1], b)
    decreases |b|, 0
  {
    var b', y := b[..|b| - 1], b[|b| - 1];
    assert b' + [y] == b;
    if a[|a| - 1] != y {
      SubsequenceDropLast(a, b');
    }
    SubsequenceOfExtension(a[..|a| - 1], b', y);
  }

  /** A selection keeps exactly the accepted processes... */
  lemma {:induction false} SelectExactly(accept: ProcessInfo -> bool, infos: seq<ProcessInfo>)
    ensures forall info :: info in Select(accept, infos) <==> info in infos && accept(info)
  {
    if infos != [] {
      var init := infos[..|infos| - 1];
      SelectExactly(accept, init);
      assert infos == init + [infos[|infos| - 1]];
    }
  }

  /** ...and neither adds nor reorders anything. */
  lemma {:induction false} SelectIsSubsequence(accept: ProcessInfo -> bool, infos: seq<ProcessInfo>)
    ensures Subsequence(Select(accept, infos), infos)
  {
    if infos != [] {
      var init := infos[..|infos| - 1];
      var last := infos[|infos| - 1];
      SelectIsSubsequence(accept, init);
      var s := Select(accept, infos);
      if accept(last) {
        assert s == Select(accept, init) + [last];
        assert s[..|s| - 1] == Select(accept, init);
        assert s[|s| - 1] == infos[|infos| - 1];
      } else {
        assert s == Select(accept, init);
        SubsequenceOfExtension(Select(accept, init), init, last);
        assert init + [last] == infos;
      }
    }
  }

  /** A test that accepts every process of `infos` keeps all of them. */
  lemma {:induction false} SelectAll(accept: ProcessInfo -> bool, infos: seq<ProcessInfo>)
    requires forall j :: 0 <= j < |infos| ==> accept(infos[j])
    ensures Select(accept, infos) == infos
  {
    if infos != [] {
      var init := infos[..|infos| - 1];
      SelectAll(accept, init);
      assert init + [infos[|infos| - 1]] == infos;
    }
  }

  /** A stricter test selects a subsequence of what a looser one selects. */
  lemma {:induction false} SelectMonotone(strict: ProcessInfo -> bool, loose: ProcessInfo -> bool, infos: seq<ProcessInfo>)
    requires forall info :: strict(info) ==> loose(info)
    ensures Subsequence(Select(strict, infos), Select(loose, infos))
  {
    if infos != [] {
      var init := infos[..|infos| - 1];
      var last := infos[|infos| - 1];
      SelectMonotone(strict, loose, init);
      var s, l := Select(strict, infos), Select(loose, infos);
      if strict(last) {
        assert s == Select(strict, init) + [last] && l == Select(loose, init) + [last];
        assert s[..|s| - 1] == Select(strict, init) && s[|s| - 1] == last;
        assert l[..|l| - 1] == Select(loose, init) && l[|l| - 1] == last;
      } else if loose(last) {
        assert s == Select(strict, init) && l == Select(loose, init) + [last];
        SubsequenceOfExtension(Select(strict, init), Select(loose, init), last);
      } else {
        assert s == Select(strict, init) && l == Select(loose, init);
      }
    }
  }

  /** A subsequence is never longer. */
  lemma {:induction false} SubsequenceShorter<T>(a: seq<T>, b: seq<T>)
    requires Subsequence(a, b)
    ensures |a| <= |b|
    decreases |b|
  {
    if a != [] {
      if a[|a| - 1] == b[|b| - 1] {
        SubsequenceShorter(a[..|a| - 1], b[..|b| - 1]);
      } else {
        SubsequenceShorter(a, b[..|b| - 1]);
      }
    }
  }

  /** An empty query is contained in every name, so an empty search shows
      every process. */
  lemma EmptySearchKeepsAll(infos: seq<ProcessInfo>)
    ensures Select(Test(SearchFor("")), infos) == infos
  {
    forall j | 0 <= j < |infos|
      ensures Test(SearchFor(""))(infos[j])
    {
      EmptyIsContained(Lower(infos[j].name));
    }
    SelectAll(Test(SearchFor("")), infos);
  }

  /** The search ignores case: texts that lower-case alike select alike. */
  lemma SearchIgnoresCase(text1: string, text2: string, infos: seq<ProcessInfo>)
    requires Lower(text1) == Lower(text2)
    ensures Select(Test(SearchFor(text1)), infos) == Select(Test(SearchFor(text2)), infos)
  {
  }

  /** With the default thresholds of 0.0, every process with non-negative
      percentages passes the filter. */
  lemma DefaultFilterKeepsAll(infos: seq<ProcessInfo>)
    requires forall j :: 0 <= j < |infos| ==> infos[j].cpu >= 0.0 && infos[j].memory >= 0.0
    ensures Select(Test(AtLeast(0.0, 0.0)), infos) == infos
  {
    SelectAll(Test(AtLeast(0.0, 0.0)), infos);
  }

  /** Raising either threshold never lets a new process through: the
      stricter result is a subsequence of the looser one, and no longer. */
  lemma RaisingThresholdsShrinks(cpu1: real, memory1: real, cpu2: real, memory2: real, infos: seq<ProcessInfo>)
    requires cpu1 <= cpu2 && memory1 <= memory2
    ensures Subsequence(Select(Test(AtLeast(cpu2, memory2)), infos), Select(Test(AtLeast(cpu1, memory1)), infos))
    ensures |Select(Test(AtLeast(cpu2, memory2)), infos)| <= |Select(Test(AtLeast(cpu1, memory1)), infos)|
  {
    var strict, loose := Test(AtLeast(cpu2, memory2)), Test(AtLeast(cpu1, memory1));
    SelectMonotone(strict, loose, infos);
    SubsequenceShorter(Select(strict, infos), Select(loose, infos));
  }

  /** "bash" does not occur in "chrome". */
  lemma ChromeLacksBash()
    ensures !Contains("chrome", "bash")
  {
    assert !Contains("", "bash");
    assert !Contains("e", "bash") by { assert "e"[1..] == ""; }
    assert !Contains("me", "bash") by { assert "me"[1..] == "e"; }
    assert !Contains("ome", "bash") by { assert "ome"[1..] == "me"; }
    assert !Contains("rome", "bash") by { assert "rome"[1..] == "ome" && "rome"[0] != 'b'; }
    assert !Contains("hrome", "bash") by { assert "hrome"[1..] == "rome" && "hrome"[0] != 'b'; }
    assert "chrome"[1..] == "hrome" && "chrome"[0] != 'b';
  }

  /** The scenario of a search for "BASH" over chrome and bash: only bash. */
  lemma SearchScenario()
    ensures Select(Test(SearchFor("BASH")),
                   [ProcessInfo(100, "chrome", 5.0, 10.0, 4), ProcessInfo(101, "bash", 0.5, 0.2, 1)])
         == [ProcessInfo(101, "bash", 0.5, 0.2, 1)]
  {
    var chrome, bash := ProcessInfo(100, "chrome", 5.0, 10.0, 4), ProcessInfo(101, "bash", 0.5, 0.2, 1);
    assert Lower("BASH") == "bash";
    assert Lower("bash") == "bash";
    assert Lower("chrome") == "chrome";
    ChromeLacksBash();
    assert Contains("bash", "bash");
    assert !Test(SearchFor("BASH"))(chrome) && Test(SearchFor("BASH"))(bash);
    assert [chrome, bash][..1] == [chrome];
  }
}
