/** Dispatching import items to the import agent: one of each input per round,
    until the longest input is used up. */
module ImportData {
  import opened Windows

  /** An expand request, and the input its item was taken from. */
  datatype Request<T> = Request(source: nat, item: T)

  /** The requests of round `i`, from the first `n` inputs. */
  function Round<T>(inputs: seq<seq<T>>, i: nat, n: nat): seq<Request<T>>
    requires n <= |inputs|
  {
    if n == 0 then []
    else Round(inputs, i, n - 1) + if |inputs[n - 1]| > i then [Request(n - 1, inputs[n - 1][i])] else []
  }

  function Rounds<T>(inputs: seq<seq<T>>, rounds: nat): seq<Request<T>> {
    if rounds == 0 then [] else Rounds(inputs, rounds - 1) + Round(inputs, rounds - 1, |inputs|)
  }

  function Longest<T>(inputs: seq<seq<T>>): (n: nat)
    ensures forall k :: 0 <= k < |inputs| ==> |inputs[k]| <= n
  {
    if inputs == [] then 0
    else
      var n := Longest(inputs[..|inputs| - 1]);
      if |inputs[|inputs| - 1]| > n then |inputs[|inputs| - 1]| else n
  }

  method Run<T>(inputs: seq<seq<T>>) returns (requests: seq<Request<T>>, inputFiles: nat)
    requires inputs != []
    ensures requests == Rounds(inputs, Longest(inputs))
    ensures inputFiles == Low32(|requests|)
  {
    requests, inputFiles := [], 0;
    for i := 0 to Longest(inputs)
      invariant requests == Rounds(inputs, i) && inputFiles == Low32(|requests|)
    {
      for k := 0 to |inputs|
        invariant requests == Rounds(inputs, i) + Round(inputs, i, k) && inputFiles == Low32(|requests|)
      {
        if |inputs[k]| > i {
          Low32Sum(|requests|, 1);
          requests := requests + [Request(k, inputs[k][i])];
          inputFiles := Low32(inputFiles + 1);
        }
      }
    }
  }

  // --------------------------------------------------------- order and fairness

  function FromSource<T>(requests: seq<Request<T>>, source: nat): seq<T> {
    if requests == [] then []
    else
      var last := requests[|requests| - 1];
      FromSource(requests[..|requests| - 1], source) + if last.source == source then [last.item] else []
  }

  lemma {:induction false} FromSourceConcat<T>(a: seq<Request<T>>, b: seq<Request<T>>, source: nat)
    ensures FromSource(a + b, source) == FromSource(a, source) + FromSource(b, source)
  {
    hide FromSource;
    if b == [] {
      assert a + b == a;
      NothingFromSource<T>(source);
    } else {
      var n := |b| - 1;
      FromSourceConcat(a, b[..n], source);
      FromSourceAppend(a + b[..n], b[n], source);
      FromSourceAppend(b[..n], b[n], source);
      assert a + b == (a + b[..n]) + [b[n]] && b == b[..n] + [b[n]];
    }
  }

  lemma NothingFromSource<T>(source: nat)
    ensures FromSource<T>([], source) == []
  {
  }

  lemma FromSourceAppend<T>(requests: seq<Request<T>>, last: Request<T>, source: nat)
    ensures FromSource(requests + [last], source) ==
      if last.source == source then FromSource(requests, source) + [last.item] else FromSource(requests, source)
  {
    assert (requests + [last])[..|requests|] == requests;
  }

  lemma {:induction false} RoundFromSource<T>(inputs: seq<seq<T>>, i: nat, n: nat, source: nat)
    requires n <= |inputs|
    ensures FromSource(Round(inputs, i, n), source) ==
      if source < n then Next(inputs[source], i) else []
  {
    hide FromSource;
    if n == 0 {
      NothingFromSource<T>(source);
    } else {
      RoundFromSource(inputs, i, n - 1, source);
      var before := Round(inputs, i, n - 1);
      if |inputs[n - 1]| > i {
        FromSourceAppend(before, Request(n - 1, inputs[n - 1][i]), source);
      } else {
        assert Round(inputs, i, n) == before;
      }
    }
  }

  /** The first `rounds` items of an input, or all of them. */
  function Taken<T>(input: seq<T>, rounds: nat): seq<T> {
    if rounds < |input| then input[..rounds] else input
  }

  /** What round `i` takes from an input. */
  function Next<T>(input: seq<T>, i: nat): seq<T> {
    if |input| > i then [input[i]] else []
  }

  lemma TakenNext<T>(input: seq<T>, i: nat)
    ensures Taken(input, i + 1) == Taken(input, i) + Next(input, i) && Taken(input, 0) == []
  {
  }

  /** After `rounds` rounds, exactly that many items of each input have been sent, or all of them, in their order. */
  lemma {:induction false} RoundsFromSource<T>(inputs: seq<seq<T>>, rounds: nat, source: nat)
    requires source < |inputs|
    ensures FromSource(Rounds(inputs, rounds), source) == Taken(inputs[source], rounds)
  {
    hide Taken, Round, Next, FromSource;
    if rounds > 0 {
      RoundsFromSource(inputs, rounds - 1, source);
      RoundFromSource(inputs, rounds - 1, |inputs|, source);
      FromSourceConcat(Rounds(inputs, rounds - 1), Round(inputs, rounds - 1, |inputs|), source);
      TakenNext(inputs[source], rounds - 1);
    } else {
      TakenNext(inputs[source], 0);
      NothingFromSource<T>(source);
    }
  }

  /** A round goes through the inputs in order, and takes its item from each that has one. */
  lemma {:induction false} RoundIsInOrder<T>(inputs: seq<seq<T>>, i: nat, n: nat)
    requires n <= |inputs|
    ensures var round := Round(inputs, i, n);
            && (forall k :: 0 <= k < |round| ==> round[k].source < n && IsItem(inputs, i, round[k]))
            && (forall j, k :: 0 <= j < k < |round| ==> round[j].source < round[k].source)
  {
    hide IsItem;
    if n > 0 {
      RoundIsInOrder(inputs, i, n - 1);
      if |inputs[n - 1]| > i {
        ItemTaken(inputs, i, n - 1);
        assert Round(inputs, i, n) == Round(inputs, i, n - 1) + [Request(n - 1, inputs[n - 1][i])];
      } else {
        assert Round(inputs, i, n) == Round(inputs, i, n - 1);
      }
    }
  }

  /** The request is for item `i` of its source. */
  ghost predicate IsItem<T>(inputs: seq<seq<T>>, i: nat, request: Request<T>) {
    request.source < |inputs| && i < |inputs[request.source]| && Request(request.source, inputs[request.source][i]) == request
  }

  lemma ItemTaken<T>(inputs: seq<seq<T>>, i: nat, source: nat)
    requires source < |inputs| && i < |inputs[source]|
    ensures IsItem(inputs, i, Request(source, inputs[source][i]))
  {
  }

  // ------------------------------------------------------------- a permutation

  function Items<T>(requests: seq<Request<T>>): seq<T> {
    seq(|requests|, i requires 0 <= i < |requests| => requests[i].item)
  }

  lemma ItemsConcat<T>(a: seq<Request<T>>, b: seq<Request<T>>)
    ensures Items(a + b) == Items(a) + Items(b)
  {
  }

  lemma EmptyItems<T>()
    ensures Items<T>([]) == []
  {
  }

  /** What is taken from each of the first `n` inputs in `rounds` rounds. */
  ghost function Prefixes<T>(inputs: seq<seq<T>>, rounds: nat, n: nat): multiset<T>
    requires n <= |inputs|
  {
    if n == 0 then multiset{}
    else Prefixes(inputs, rounds, n - 1) + multiset(Taken(inputs[n - 1], rounds))
  }

  lemma RoundItems<T>(inputs: seq<seq<T>>, i: nat, n: nat)
    requires 0 < n <= |inputs|
    ensures Items(Round(inputs, i, n)) == Items(Round(inputs, i, n - 1)) + Next(inputs[n - 1], i)
  {
    var before := Round(inputs, i, n - 1);
    if |inputs[n - 1]| > i {
      var last := [Request(n - 1, inputs[n - 1][i])];
      ItemsConcat(before, last);
      assert Items(last) == [inputs[n - 1][i]];
    } else {
      assert Round(inputs, i, n) == before;
    }
  }

  lemma Regroup<T>(a: multiset<T>, b: multiset<T>, c: multiset<T>, d: multiset<T>)
    ensures (a + b) + (c + d) == (a + c) + (b + d)
  {
  }

  lemma {:induction false} RoundAdds<T>(inputs: seq<seq<T>>, i: nat, n: nat)
    requires n <= |inputs|
    ensures Prefixes(inputs, i + 1, n) == Prefixes(inputs, i, n) + multiset(Items(Round(inputs, i, n)))
  {
    hide Taken, Next, Items;
    if n > 0 {
      hide Round;
      var input := inputs[n - 1];
      RoundAdds(inputs, i, n - 1);
      assert multiset(Taken(input, i + 1)) == multiset(Taken(input, i)) + multiset(Next(input, i)) by {
        TakenNext(input, i);
      }
      assert multiset(Items(Round(inputs, i, n))) == multiset(Items(Round(inputs, i, n - 1))) + multiset(Next(input, i)) by {
        RoundItems(inputs, i, n);
      }
      Regroup(Prefixes(inputs, i, n - 1), multiset(Items(Round(inputs, i, n - 1))),
              multiset(Taken(input, i)), multiset(Next(input, i)));
    } else {
      EmptyItems<T>();
    }
  }

  lemma {:induction false} RoundsArePrefixes<T>(inputs: seq<seq<T>>, rounds: nat)
    ensures multiset(Items(Rounds(inputs, rounds))) == Prefixes(inputs, rounds, |inputs|)
  {
    hide Round, Prefixes, Items;
    if rounds == 0 {
      NoPrefixes(inputs, |inputs|);
      EmptyItems<T>();
    } else {
      RoundsArePrefixes(inputs, rounds - 1);
      RoundAdds(inputs, rounds - 1, |inputs|);
      ItemsConcat(Rounds(inputs, rounds - 1), Round(inputs, rounds - 1, |inputs|));
    }
  }

  lemma {:induction false} NoPrefixes<T>(inputs: seq<seq<T>>, n: nat)
    requires n <= |inputs|
    ensures Prefixes(inputs, 0, n) == multiset{}
  {
    if n > 0 { NoPrefixes(inputs, n - 1); }
  }

  function Concatenated<T>(inputs: seq<seq<T>>, n: nat): seq<T>
    requires n <= |inputs|
  {
    if n == 0 then [] else Concatenated(inputs, n - 1) + inputs[n - 1]
  }

  lemma {:induction false} AllPrefixes<T>(inputs: seq<seq<T>>, rounds: nat, n: nat)
    requires n <= |inputs| && forall k :: 0 <= k < |inputs| ==> |inputs[k]| <= rounds
    ensures Prefixes(inputs, rounds, n) == multiset(Concatenated(inputs, n))
  {
    if n > 0 {
      AllPrefixes(inputs, rounds, n - 1);
    }
  }

  /** The items sent are a permutation of all items of all inputs, so their number is the sum of the lengths,
      and those of each input keep their order. */
  lemma {:induction false} DispatchIsPermutation<T>(inputs: seq<seq<T>>)
    ensures var sent := Rounds(inputs, Longest(inputs));
            && multiset(Items(sent)) == multiset(Concatenated(inputs, |inputs|))
            && |sent| == |Concatenated(inputs, |inputs|)|
            && forall k :: 0 <= k < |inputs| ==> FromSource(sent, k) == inputs[k]
  {
    var sent := Rounds(inputs, Longest(inputs));
    RoundsArePrefixes(inputs, Longest(inputs));
    AllPrefixes(inputs, Longest(inputs), |inputs|);
    assert |multiset(Items(sent))| == |sent|;
    assert |multiset(Concatenated(inputs, |inputs|))| == |Concatenated(inputs, |inputs|)|;
    forall k | 0 <= k < |inputs| ensures FromSource(sent, k) == inputs[k] {
      RoundsFromSource(inputs, Longest(inputs), k);
    }
  }
}
