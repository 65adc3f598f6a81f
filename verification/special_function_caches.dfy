/** FastGamma and FastDigamma: memo tables in front of the log-gamma and
    digamma functions, which stay abstract here. */
module SpecialFunctionCaches {
  import opened Failures
  import opened Memoization

  /** FastGamma: memo of cern.jet.stat.Gamma.logGamma. */
  datatype FastGamma = FastGamma(memo: Memo<real, real>)

  /** FastDigamma: memo of com.aliasi.util.Math.digamma. */
  datatype FastDigamma = FastDigamma(memo: Memo<real, real>)

  /** new FastGamma(): an empty memo with the default HashMap sizing. */
  function NewFastGamma(lnGamma: real -> real): (g: FastGamma)
    ensures g.memo.f == lnGamma && g.memo.entries == map[] && Coherent(g.memo)
  {
    FastGamma(Memo(lnGamma, map[]))
  }

  /** new FastGamma(initSize, loadFactor): the HashMap constructor's checks;
      an accepted sizing gives the same empty memo as the default constructor. */
  function NewFastGammaSized(lnGamma: real -> real, initSize: int, loadFactor: real): (r: Result<FastGamma>)
    ensures r.Ok? <==> initSize >= 0 && loadFactor > 0.0
    ensures r.Err? ==> r.error == IllegalArgument
    ensures r.Ok? ==> r.value == NewFastGamma(lnGamma)
  {
    var m :- NewMemo(lnGamma, initSize, loadFactor);
    Ok(FastGamma(m))
  }

  /** logGamma(x) = memo.computeIfAbsent(x, Gamma::logGamma). */
  function LogGamma(g: FastGamma, x: real): (r: (real, FastGamma))
    requires Coherent(g.memo)
    ensures r.0 == g.memo.f(x)
    ensures r.1.memo.f == g.memo.f && Coherent(r.1.memo)
    ensures r.1.memo.entries.Keys == g.memo.entries.Keys + {x}
    ensures forall y :: y in g.memo.entries ==> r.1.memo.entries[y] == g.memo.entries[y]
    ensures x in g.memo.entries ==> r.1 == g
  {
    var (v, m) := Apply(g.memo, x);
    (v, FastGamma(m))
  }

  /** new FastDigamma(): an empty memo. */
  function NewFastDigamma(digamma: real -> real): (g: FastDigamma)
    ensures g.memo.f == digamma && g.memo.entries == map[] && Coherent(g.memo)
  {
    FastDigamma(Memo(digamma, map[]))
  }

  /** digamma(x) = memo.computeIfAbsent(x, Math::digamma). */
  function Digamma(g: FastDigamma, x: real): (r: (real, FastDigamma))
    requires Coherent(g.memo)
    ensures r.0 == g.memo.f(x)
    ensures r.1.memo.f == g.memo.f && Coherent(r.1.memo)
    ensures r.1.memo.entries.Keys == g.memo.entries.Keys + {x}
    ensures forall y :: y in g.memo.entries ==> r.1.memo.entries[y] == g.memo.entries[y]
    ensures x in g.memo.entries ==> r.1 == g
  {
    var (v, m) := Apply(g.memo, x);
    (v, FastDigamma(m))
  }

  /** Two calls on a fresh FastGamma: both answers are lnΓ, and asking for
      the same argument twice caches it once. */
  lemma LogGammaTwice(lnGamma: real -> real, x: real, y: real)
    ensures var (a, g1) := LogGamma(NewFastGamma(lnGamma), x);
            var (b, g2) := LogGamma(g1, y);
            a == lnGamma(x) && b == lnGamma(y) && g2.memo.entries.Keys == {x, y}
            && (x == y ==> g2 == g1)
  {
  }
}
