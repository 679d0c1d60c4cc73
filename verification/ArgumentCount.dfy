/** The argument count check: how many repetitions of the repeated block and how
    many optional arguments explain a call with `n` arguments.
 */
module ArgumentCount {
  import opened Signatures

  /** `n` arguments are explained by `x` repetitions and `y` optional arguments. */
  predicate Solves(ps: seq<Parameter>, n: nat, x: nat, y: nat) {
    n == NumRequired(ps) + x * NumRepeated(ps) + y && y <= NumOptional(ps)
  }

  /** `x` is the smallest number of repetitions that explains `n` arguments. */
  ghost predicate Counts(ps: seq<Parameter>, n: nat, x: nat) {
    && (exists y :: Solves(ps, n, x, y))
    && forall x', y' :: Solves(ps, n, x', y') ==> x <= x'
  }

  /** Decides whether some pair explains the call and returns the one with the
      fewest repetitions. */
  method SignatureArgumentCountMatches(ps: seq<Parameter>, n: nat)
      returns (ok: bool, repetitions: nat, optionals: nat)
    requires Valid(ps)
    ensures ok <==> exists x, y :: Solves(ps, n, x, y)
    ensures ok ==> Solves(ps, n, repetitions, optionals)
    ensures ok ==> forall x, y :: Solves(ps, n, x, y) ==> repetitions <= x
  {
    Layout(ps);
    hide Valid, NumRequired, NumRepeated, NumOptional;
    var required, repeated, optional := NumRequired(ps), NumRepeated(ps), NumOptional(ps);
    repetitions, optionals := 0, 0;
    if required == n {
      assert Solves(ps, n, 0, 0);
      return true, 0, 0;
    }
    if required > n {
      return false, 0, 0;
    }
    if repeated > 0 {
      while n > required + repetitions * repeated + optional
        invariant forall x, y :: Solves(ps, n, x, y) ==> repetitions <= x
        decreases n - repetitions * repeated
      {
        forall x, y | Solves(ps, n, x, y)
          ensures repetitions + 1 <= x
        {
          MoreRepetitions(repeated, x, repetitions);
        }
        MoreRepetitions(repeated, repetitions, repetitions + 1);
        repetitions := repetitions + 1;
      }
    }
    if repeated == 0 && n > |ps| {
      return false, repetitions, 0;
    }
    var remainder := n - required - repetitions * repeated;
    if remainder < 0 {
      forall x, y | Solves(ps, n, x, y)
        ensures false
      {
        MoreRepetitions(repeated, repetitions, x);
      }
      return false, repetitions, 0;
    }
    if remainder > optional {
      assert false; // the loop and the check above leave at most `optional` arguments
    }
    assert Solves(ps, n, repetitions, remainder);
    return true, repetitions, remainder;
  }

  lemma MoreRepetitions(rep: nat, r: nat, x: nat)
    ensures r <= x ==> r * rep <= x * rep
    ensures x == r + 1 ==> x * rep == r * rep + rep
  {
    if r <= x {
      assert x * rep == r * rep + (x - r) * rep;
    }
  }

  /** A valid signature has more repeated than optional parameters, so the number
      of repetitions is determined by the number of arguments. */
  lemma SolutionUnique(ps: seq<Parameter>, n: nat, x1: nat, y1: nat, x2: nat, y2: nat)
    requires Valid(ps) && NumRepeated(ps) > 0
    requires Solves(ps, n, x1, y1) && Solves(ps, n, x2, y2)
    ensures x1 == x2 && y1 == y2
  {
    UniqueQuotient(NumRepeated(ps), x1, y1, x2, y2);
  }

  lemma UniqueQuotient(rep: nat, x1: nat, y1: nat, x2: nat, y2: nat)
    requires y1 < rep && y2 < rep
    requires x1 * rep + y1 == x2 * rep + y2
    ensures x1 == x2 && y1 == y2
  {
    if x1 < x2 {
      MoreRepetitions(rep, x1 + 1, x2);
    } else if x2 < x1 {
      MoreRepetitions(rep, x2 + 1, x1);
    }
  }
}
