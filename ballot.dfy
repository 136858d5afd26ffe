/**
 * The ballot rules of the voting page: the form that collects five choices
 * and five point inputs, and the chain of acceptance checks run on submit.
 */
module BallotRules {
  import opened Records
  import opened Text
  import opened Settings
  import opened Scoring
  import opened DataManager

  ghost predicate Distinct(xs: seq<nat>)
  {
    forall i, j :: 0 <= i < j < |xs| ==> xs[i] != xs[j]
  }

  /** `len(set(xs))`. */
  function DistinctCount(xs: seq<nat>): nat
  {
    |set x: nat | x in xs|
  }

  /** `sum(xs)`. */
  function Sum(xs: seq<nat>): nat
  {
    if xs == [] then 0 else Sum(xs[..|xs| - 1]) + xs[|xs| - 1]
  }

  /** `list(zip(choices, points))`: pairs up to the shorter of the two lists. */
  function Zip(choices: seq<nat>, points: seq<nat>): (r: seq<Allocation>)
    ensures |r| == |choices| || |r| == |points|
    ensures |r| <= |choices| && |r| <= |points|
    ensures forall i :: 0 <= i < |r| ==> r[i].book == choices[i] && r[i].points == points[i]
  {
    var n := if |choices| < |points| then |choices| else |points|;
    seq(n, i requires 0 <= i < n => Allocation(choices[i], points[i]))
  }

  /** The two names are equal after lower-casing: the self-vote rule's notion of identity. */
  predicate SameName(a: string, b: string)
  {
    Lower(a) == Lower(b)
  }

  /** The first book position whose submitter is the voter, ignoring case; `None` when there is none. */
  function OwnSubmission(books: seq<Book>, voterName: string): (r: Option<nat>)
    ensures r.Some? ==> r.value < |books| && SameName(books[r.value].submitter, voterName)
    ensures r.Some? ==> forall j :: 0 <= j < r.value ==> !SameName(books[j].submitter, voterName)
    ensures r.None? ==> forall j :: 0 <= j < |books| ==> !SameName(books[j].submitter, voterName)
  {
    if books == [] then None
    else if SameName(books[0].submitter, voterName) then Some(0)
    else
      match OwnSubmission(books[1..], voterName)
      case None => None
      case Some(i) => Some(i + 1)
  }

  /** `user_submission in votes`: the voter's first submission is among the choices. */
  predicate OwnChosen(books: seq<Book>, voterName: string, choices: seq<nat>): (r: bool)
    ensures r <==> exists i :: 0 <= i < |books| && i in choices && SameName(books[i].submitter, voterName) &&
                              forall j :: 0 <= j < i ==> !SameName(books[j].submitter, voterName)
  {
    match OwnSubmission(books, voterName)
    case None => false
    case Some(i) => i in choices
  }

  /** The four checks on the form itself, which come before any look at the stores. */
  predicate FormChecksPass(voterName: string, choices: seq<nat>, points: seq<nat>)
  {
    voterName != [] && Sum(points) == TotalPoints && DistinctCount(choices) == MaxVotesPerPerson && 0 !in points
  }

  datatype BallotCheck =
    | NameMissing
    | WrongTotal(total: nat)
    | NotFiveDistinct
    | ZeroPoints
    | AlreadyVoted
    | OwnBookChosen
    | Accepted(allocations: seq<Allocation>)

  /**
   * The acceptance checks of the voting page, in their order; the first that
   * fails is the one reported. An accepted ballot's allocations pair the
   * choices with the points in choice order.
   */
  function CheckBallot(voterName: string, choices: seq<nat>, points: seq<nat>, books: seq<Book>, votes: seq<Ballot>)
    : (r: BallotCheck)
    ensures r == NameMissing <==> voterName == []
    ensures r.WrongTotal? <==> voterName != [] && Sum(points) != TotalPoints
    ensures r.WrongTotal? ==> r.total == Sum(points)
    ensures r == NotFiveDistinct <==>
      voterName != [] && Sum(points) == TotalPoints && DistinctCount(choices) != MaxVotesPerPerson
    ensures r == ZeroPoints <==>
      voterName != [] && Sum(points) == TotalPoints && DistinctCount(choices) == MaxVotesPerPerson && 0 in points
    ensures r == AlreadyVoted <==> FormChecksPass(voterName, choices, points) && HasVoted(votes, voterName)
    ensures r == OwnBookChosen <==>
      FormChecksPass(voterName, choices, points) && !HasVoted(votes, voterName) && OwnChosen(books, voterName, choices)
    ensures r.Accepted? <==>
      FormChecksPass(voterName, choices, points) && !HasVoted(votes, voterName) && !OwnChosen(books, voterName, choices)
    ensures r.Accepted? ==> r.allocations == Zip(choices, points)
  {
    if voterName == [] then NameMissing
    else if Sum(points) != TotalPoints then WrongTotal(Sum(points))
    else if DistinctCount(choices) != MaxVotesPerPerson then NotFiveDistinct
    else if 0 in points then ZeroPoints
    else if HasVoted(votes, voterName) then AlreadyVoted
    else if OwnChosen(books, voterName, choices) then OwnBookChosen
    else Accepted(Zip(choices, points))
  }

  // ---------------------------------------------------------------- counting lemmas

  /** A list has at most as many distinct elements as entries, and exactly as many when no entry repeats. */
  lemma {:induction false} DistinctCountBound(xs: seq<nat>)
    ensures DistinctCount(xs) <= |xs|
    ensures DistinctCount(xs) == |xs| <==> Distinct(xs)
  {
    if xs != [] {
      var rest := xs[1..];
      DistinctCountBound(rest);
      var sr := set x: nat | x in rest;
      assert (set x: nat | x in xs) == {xs[0]} + sr by {
        assert xs == [xs[0]] + rest;
      }
      if xs[0] in rest {
        assert DistinctCount(xs) == |sr|;
        var k :| 0 <= k < |rest| && rest[k] == xs[0];
        assert xs[0] == xs[k + 1];
      } else {
        assert DistinctCount(xs) == |sr| + 1;
        DistinctCons(xs);
      }
    }
  }

  lemma DistinctCons(xs: seq<nat>)
    requires xs != [] && xs[0] !in xs[1..]
    ensures Distinct(xs) <==> Distinct(xs[1..])
  {
    var rest := xs[1..];
    if Distinct(rest) {
      forall i, j | 0 <= i < j < |xs| ensures xs[i] != xs[j] {
        if i == 0 {
          assert xs[j] == rest[j - 1];
        } else {
          assert xs[i] == rest[i - 1] && xs[j] == rest[j - 1];
        }
      }
    }
    if Distinct(xs) {
      forall i, j | 0 <= i < j < |rest| ensures rest[i] != rest[j] {
        assert rest[i] == xs[i + 1] && rest[j] == xs[j + 1];
      }
    }
  }

  lemma {:induction false} ElementAtMostSum(xs: seq<nat>, i: nat)
    requires i < |xs|
    ensures xs[i] <= Sum(xs)
  {
    if i < |xs| - 1 {
      ElementAtMostSum(xs[..|xs| - 1], i);
    }
  }

  lemma {:induction false} ZipSum(choices: seq<nat>, points: seq<nat>)
    requires |points| <= |choices|
    ensures SumPoints(Zip(choices, points)) == Sum(points)
  {
    if points != [] {
      var p := points[..|points| - 1];
      ZipSum(choices, p);
      assert Zip(choices, points)[..|points| - 1] == Zip(choices, p);
    }
  }

  // ---------------------------------------------------------------- properties of accepted ballots

  /**
   * A ballot accepted from what the form produces (five point inputs, at most
   * five choices) has exactly five allocations, to five different books, each
   * of 1 to 100 points, spending the whole budget; the voter had not voted and
   * did not choose their first-listed submission.
   */
  lemma AcceptedBallotShape(voterName: string, choices: seq<nat>, points: seq<nat>, books: seq<Book>, votes: seq<Ballot>)
    requires |points| == MaxVotesPerPerson && |choices| <= MaxVotesPerPerson
    requires CheckBallot(voterName, choices, points, books, votes).Accepted?
    ensures var allocs := CheckBallot(voterName, choices, points, books, votes).allocations;
      && |allocs| == MaxVotesPerPerson
      && (forall i, j :: 0 <= i < j < |allocs| ==> allocs[i].book != allocs[j].book)
      && (forall i :: 0 <= i < |allocs| ==> 1 <= allocs[i].points <= TotalPoints)
      && SumPoints(allocs) == TotalPoints
      && (forall i :: 0 <= i < |allocs| ==> allocs[i].book in choices)
  {
    var allocs := Zip(choices, points);
    DistinctCountBound(choices);
    assert |choices| == MaxVotesPerPerson;
    forall i | 0 <= i < |allocs| ensures 1 <= allocs[i].points <= TotalPoints {
      ElementAtMostSum(points, i);
      assert points[i] in points;
    }
    ZipSum(choices, points);
  }

  /** A form with fewer than five choices (fewer than five books listed) is never accepted. */
  lemma FewChoicesNeverAccepted(voterName: string, choices: seq<nat>, points: seq<nat>, books: seq<Book>, votes: seq<Ballot>)
    requires |choices| < MaxVotesPerPerson
    ensures !CheckBallot(voterName, choices, points, books, votes).Accepted?
  {
    DistinctCountBound(choices);
  }

  /**
   * Only the first-listed submission is protected: when the voter's first
   * book is not chosen, the ballot passes the self-vote check even if it
   * chooses a later book the voter also submitted.
   */
  lemma LaterSubmissionNotChecked(voterName: string, choices: seq<nat>, points: seq<nat>, books: seq<Book>, votes: seq<Ballot>,
                                  first: nat, later: nat)
    requires first < later < |books|
    requires forall j :: 0 <= j < first ==> !SameName(books[j].submitter, voterName)
    requires SameName(books[first].submitter, voterName) && SameName(books[later].submitter, voterName)
    requires first !in choices && later in choices
    requires FormChecksPass(voterName, choices, points) && !HasVoted(votes, voterName)
    ensures CheckBallot(voterName, choices, points, books, votes) == Accepted(Zip(choices, points))
  {
    var own := OwnSubmission(books, voterName);
    assert own.Some?;
    assert own == Some(first);
  }

  ghost predicate DistinctVoters(votes: seq<Ballot>)
  {
    forall i, j :: 0 <= i < j < |votes| ==> votes[i].voter != votes[j].voter
  }

  /** Storing an accepted ballot keeps voter names unique in the store. */
  lemma AcceptKeepsVotersDistinct(voterName: string, choices: seq<nat>, points: seq<nat>, books: seq<Book>, votes: seq<Ballot>,
                                  timestamp: string)
    requires DistinctVoters(votes)
    requires CheckBallot(voterName, choices, points, books, votes).Accepted?
    ensures DistinctVoters(votes + [Ballot(voterName, Zip(choices, points), timestamp)])
  {
    var s := votes + [Ballot(voterName, Zip(choices, points), timestamp)];
    forall i, j | 0 <= i < j < |s| ensures s[i].voter != s[j].voter {
      if j == |votes| {
        assert s[i] == votes[i];
      } else {
        assert s[i] == votes[i] && s[j] == votes[j];
      }
    }
  }

  /** Once a ballot for a name is stored, every further ballot under exactly that name is refused. */
  lemma SecondBallotRefused(voterName: string, allocs: seq<Allocation>, timestamp: string,
                            choices: seq<nat>, points: seq<nat>, books: seq<Book>, votes: seq<Ballot>)
    ensures !CheckBallot(voterName, choices, points, books, votes + [Ballot(voterName, allocs, timestamp)]).Accepted?
  {
    HasVotedAfterAdd(votes, Ballot(voterName, allocs, timestamp), voterName);
  }

  // ---------------------------------------------------------------- the form

  /** The options of a choice slot: the positions below `n` not chosen yet, in position order. */
  function Unchosen(n: nat, chosen: seq<nat>): (r: seq<nat>)
    ensures |r| <= n
  {
    if n == 0 then [] else Unchosen(n - 1, chosen) + (if n - 1 in chosen then [] else [n - 1])
  }

  /** A slot lists its options in increasing position order, each once. */
  lemma {:induction false} UnchosenIncreasing(n: nat, chosen: seq<nat>)
    ensures forall i, j :: 0 <= i < j < |Unchosen(n, chosen)| ==> Unchosen(n, chosen)[i] < Unchosen(n, chosen)[j]
  {
    if n > 0 {
      var init := Unchosen(n - 1, chosen);
      var u := Unchosen(n, chosen);
      UnchosenIncreasing(n - 1, chosen);
      UnchosenElements(n - 1, chosen);
      assert u == init + (if n - 1 in chosen then [] else [n - 1]);
      forall i, j | 0 <= i < j < |u| ensures u[i] < u[j] {
        assert u[i] == init[i];
        if j == |init| {
          assert init[i] in init;
        } else {
          assert u[j] == init[j];
        }
      }
    }
  }

  lemma {:induction false} UnchosenElements(n: nat, chosen: seq<nat>)
    ensures forall x: nat :: x in Unchosen(n, chosen) <==> x < n && x !in chosen
  {
    if n > 0 {
      UnchosenElements(n - 1, chosen);
      var tail := if n - 1 in chosen then [] else [n - 1];
      assert Unchosen(n, chosen) == Unchosen(n - 1, chosen) + tail;
      forall x: nat ensures x in Unchosen(n, chosen) <==> x < n && x !in chosen {
        assert x in Unchosen(n, chosen) <==> x in Unchosen(n - 1, chosen) || x in tail;
        assert x in Unchosen(n - 1, chosen) <==> x < n - 1 && x !in chosen;
        assert x in tail <==> x == n - 1 && x !in chosen;
      }
    }
  }

  lemma {:induction false} UnchosenSize(n: nat, chosen: seq<nat>)
    ensures |Unchosen(n, chosen)| + |set x: nat | x in chosen && x < n| == n
  {
    if n > 0 {
      UnchosenSize(n - 1, chosen);
      var below := set x: nat | x in chosen && x < n - 1;
      assert n - 1 !in below;
      if n - 1 in chosen {
        assert (set x: nat | x in chosen && x < n) == below + {n - 1};
      } else {
        assert (set x: nat | x in chosen && x < n) == below;
      }
    }
  }

  lemma UnchosenCount(n: nat, chosen: seq<nat>)
    requires Distinct(chosen) && forall i :: 0 <= i < |chosen| ==> chosen[i] < n
    ensures |Unchosen(n, chosen)| == n - |chosen|
  {
    UnchosenSize(n, chosen);
    assert (set x: nat | x in chosen && x < n) == set x: nat | x in chosen;
    DistinctCountBound(chosen);
  }

  /** One filled slot: the option picked is new and in range, and earlier picks stay as they were. */
  lemma ExtendChoices(n: nat, choices: seq<nat>, pick: nat)
    requires Distinct(choices) && forall k :: 0 <= k < |choices| ==> choices[k] < n
    requires pick < |Unchosen(n, choices)|
    ensures var next := choices + [Unchosen(n, choices)[pick]];
      && Distinct(next)
      && (forall k :: 0 <= k < |next| ==> next[k] < n)
      && next[..|choices|] == choices
      && (forall k :: 0 <= k <= |choices| ==> next[..k] == choices[..k])
  {
    UnchosenElements(n, choices);
    var selected := Unchosen(n, choices)[pick];
    assert selected in Unchosen(n, choices);
  }

  /** The choices made in slots before `k`. */
  ghost predicate PickedFromOptions(n: nat, choices: seq<nat>, picks: seq<nat>)
    requires |picks| >= |choices|
  {
    forall k :: 0 <= k < |choices| ==>
      picks[k] < |Unchosen(n, choices[..k])| && choices[k] == Unchosen(n, choices[..k])[picks[k]]
  }

  /** The state of the form after its first `i` slots. */
  ghost predicate FormSoFar(n: nat, choices: seq<nat>, picks: seq<nat>, i: nat)
  {
    && |choices| == (if n < i then n else i)
    && |picks| >= |choices|
    && Distinct(choices)
    && (forall k :: 0 <= k < |choices| ==> choices[k] < n)
    && PickedFromOptions(n, choices, picks)
  }

  /**
   * One more slot: when options are left, the one picked joins the choices
   * and is new and in range; when none are left, nothing is added.
   */
  lemma FormSlot(n: nat, choices: seq<nat>, picks: seq<nat>, i: nat)
    requires i < |picks|
    requires i < n ==> picks[i] < n - i
    requires FormSoFar(n, choices, picks, i)
    ensures |Unchosen(n, choices)| > 0 <==> i < n
    ensures |Unchosen(n, choices)| > 0 ==> picks[i] < |Unchosen(n, choices)|
    ensures |Unchosen(n, choices)| > 0 ==> FormSoFar(n, choices + [Unchosen(n, choices)[picks[i]]], picks, i + 1)
    ensures |Unchosen(n, choices)| == 0 ==> FormSoFar(n, choices, picks, i + 1)
  {
    UnchosenCount(n, choices);
    if i < n {
      assert |choices| == i;
      ExtendChoices(n, choices, picks[i]);
    }
  }

  /** One more point input read. */
  lemma PrefixStep(inputs: seq<nat>, i: nat)
    requires i < |inputs|
    ensures inputs[..i + 1] == inputs[..i] + [inputs[i]]
    ensures inputs[..|inputs|] == inputs
  {
  }

  /**
   * One choice slot: its options are the positions not chosen yet; when
   * there are any, the one picked is appended to the choices.
   */
  method FillSlot(n: nat, choices: seq<nat>, picks: seq<nat>, i: nat) returns (next: seq<nat>)
    requires i < |picks|
    requires i < n ==> picks[i] < n - i
    requires FormSoFar(n, choices, picks, i)
    ensures FormSoFar(n, next, picks, i + 1)
    ensures i < n ==> |next| == |choices| + 1 && next[..|choices|] == choices
    ensures n <= i ==> next == choices
  {
    var options := Unchosen(n, choices);
    FormSlot(n, choices, picks, i);
    next := choices;
    if |options| > 0 {
      next := choices + [options[picks[i]]];
    }
  }

  /** After the last slot: one choice per slot while books last, distinct and in range. */
  lemma FormDone(n: nat, choices: seq<nat>, picks: seq<nat>)
    requires FormSoFar(n, choices, picks, MaxVotesPerPerson)
    ensures |choices| == if n < MaxVotesPerPerson then n else MaxVotesPerPerson
    ensures Distinct(choices) && DistinctCount(choices) == |choices|
    ensures forall i :: 0 <= i < |choices| ==> choices[i] < n
    ensures PickedFromOptions(n, choices, picks)
  {
    DistinctCountBound(choices);
  }

  /**
   * The form loop: five slots, each offering the books not chosen in earlier
   * slots (a slot with no options left adds no choice), each with a point
   * input. `picks[i]` is the option the user selects in slot `i`, counted
   * within that slot's options; `inputs[i]` is the number typed in slot `i`.
   * The choices are distinct, existing book positions, one per slot while
   * books last.
   */
  method CollectBallotForm(bookCount: nat, picks: seq<nat>, inputs: seq<nat>) returns (choices: seq<nat>, points: seq<nat>)
    requires |picks| == MaxVotesPerPerson && |inputs| == MaxVotesPerPerson
    requires forall i :: 0 <= i < MaxVotesPerPerson && i < bookCount ==> picks[i] < bookCount - i
    ensures |choices| == if bookCount < MaxVotesPerPerson then bookCount else MaxVotesPerPerson
    ensures Distinct(choices) && DistinctCount(choices) == |choices|
    ensures forall i :: 0 <= i < |choices| ==> choices[i] < bookCount
    ensures PickedFromOptions(bookCount, choices, picks)
    ensures points == inputs
  {
    choices, points := [], [];
    var i := 0;
    while i < MaxVotesPerPerson
      invariant 0 <= i <= MaxVotesPerPerson
      invariant FormSoFar(bookCount, choices, picks, i)
      invariant points == inputs[..i]
    {
      choices := FillSlot(bookCount, choices, picks, i);
      PrefixStep(inputs, i);
      points := points + [inputs[i]];
      i := i + 1;
    }
    FormDone(bookCount, choices, picks);
  }
}
