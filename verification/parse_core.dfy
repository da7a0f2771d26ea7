/**
  Parser combinators with parsing-expression-grammar semantics: a parser
  takes the input and either fails or yields an attribute and the input it
  has not consumed. Failure does not consume anything.

  The operators build these combinators: `a >> b` sequence, `a | b` ordered
  choice, `+a` one or more, `p ->* f` attribute action, and `&p` the
  non-consuming look-ahead.
 */
module ParseCore {
  import opened Wrappers

  type Parser<A> = string -> Option<(A, string)>

  /** One character of a class. */
  function Chr(pred: char -> bool): Parser<char> {
    s => ClassStep(pred, s)
  }

  /** What a single-character class parser does on `s`. */
  function ClassStep(pred: char -> bool, s: string): Option<(char, string)> {
    if |s| > 0 && pred(s[0]) then Some((s[0], s[1..])) else None
  }

  /** A literal string; its attribute is unused. */
  function Lit(w: string): Parser<()> {
    s => if |w| <= |s| && s[..|w|] == w then Some(((), s[|w|..])) else None
  }

  /** `a >> b`. */
  function Seq<A, B>(p: Parser<A>, q: Parser<B>): Parser<(A, B)> {
    s =>
      match p(s)
      case None => None
      case Some((a, r)) =>
        match q(r)
        case None => None
        case Some((b, r')) => Some(((a, b), r'))
  }

  /** `a | b`: the first alternative that succeeds. */
  function Alt<A>(p: Parser<A>, q: Parser<A>): Parser<A> {
    s => if p(s).Some? then p(s) else q(s)
  }

  /** `p ->* f` with a constant action: `p`'s attribute replaced by `v`. */
  function Action<A, B>(p: Parser<A>, v: B): Parser<B> {
    s =>
      match p(s)
      case None => None
      case Some((_, r)) => Some((v, r))
  }

  /** `&p`: succeeds exactly when `p` does, consumes nothing, and has no
      attribute. */
  function And<A>(p: Parser<A>): (r: Parser<()>)
    ensures forall s :: r(s).Some? <==> p(s).Some?
    ensures forall s :: r(s).Some? ==> r(s).value.1 == s
  {
    s => if p(s).Some? then Some(((), s)) else None
  }

  /** A parser that consumes at least one character whenever it succeeds,
      so that repeating it terminates. */
  ghost predicate Consumes<A>(p: Parser<A>) {
    forall s :: p(s).Some? ==> |p(s).value.1| < |s|
  }

  /** Zero or more repetitions, as many as possible. */
  function Many<A>(p: Parser<A>, s: string): (r: (seq<A>, string))
    requires Consumes(p)
    ensures |r.1| <= |s|
    decreases |s|
  {
    match p(s)
    case None => ([], s)
    case Some((a, rest)) =>
      var m := Many(p, rest);
      ([a] + m.0, m.1)
  }

  /** `+p`: one or more repetitions. */
  function Plus<A>(p: Parser<A>, s: string): (r: Option<(seq<A>, string)>)
    requires Consumes(p)
    ensures r.Some? <==> p(s).Some?
    ensures r.Some? ==> |r.value.0| >= 1 && r.value.0[0] == p(s).value.0
  {
    match p(s)
    case None => None
    case Some((a, rest)) =>
      var m := Many(p, rest);
      Some(([a] + m.0, m.1))
  }

  /** Number of leading characters of `s` in the class. */
  function RunLength(pred: char -> bool, s: string): (n: nat)
    ensures n <= |s|
    decreases |s|
  {
    if |s| > 0 && pred(s[0]) then 1 + RunLength(pred, s[1..]) else 0
  }

  /** The run is the longest prefix in the class. */
  lemma {:induction false} RunLengthMaximal(pred: char -> bool, s: string)
    ensures forall i :: 0 <= i < RunLength(pred, s) ==> pred(s[i])
    ensures RunLength(pred, s) == |s| || !pred(s[RunLength(pred, s)])
    decreases |s|
  {
    if |s| > 0 && pred(s[0]) {
      RunLengthMaximal(pred, s[1..]);
    }
  }

  /** A run followed by a character outside the class, or by nothing, is
      exactly what `RunLength` measures. */
  lemma {:induction false} RunLengthOf(pred: char -> bool, xs: string, t: string)
    requires forall i :: 0 <= i < |xs| ==> pred(xs[i])
    requires t == [] || !pred(t[0])
    ensures RunLength(pred, xs + t) == |xs|
    decreases |xs|
  {
    if |xs| > 0 {
      assert (xs + t)[0] == xs[0];
      assert (xs + t)[1..] == xs[1..] + t;
      RunLengthOf(pred, xs[1..], t);
    } else {
      assert xs + t == t;
    }
  }

  lemma ChrConsumes(pred: char -> bool)
    ensures Consumes(Chr(pred))
  {
  }

  /** Repeating a class parser takes the longest run of the class and
      leaves the rest. */
  lemma {:induction false} ManyClass(pred: char -> bool, s: string)
    ensures Consumes(Chr(pred))
    ensures Many(Chr(pred), s) == (s[..RunLength(pred, s)], s[RunLength(pred, s)..])
    decreases |s|
  {
    ChrConsumes(pred);
    if |s| > 0 && pred(s[0]) {
      var t := s[1..];
      ManyClass(pred, t);
      var n := RunLength(pred, t);
      assert Many(Chr(pred), s) == ([s[0]] + t[..n], t[n..]);
      assert [s[0]] + t[..n] == s[..1 + n];
      assert t[n..] == s[1 + n..];
    }
  }

  /** One or more of a class: fails exactly when the first character is
      outside the class; otherwise the longest run of the class. */
  lemma PlusClass(pred: char -> bool, s: string)
    ensures Consumes(Chr(pred))
    ensures Plus(Chr(pred), s).Some? <==> |s| > 0 && pred(s[0])
    ensures Plus(Chr(pred), s).Some? ==> Plus(Chr(pred), s).value == (s[..RunLength(pred, s)], s[RunLength(pred, s)..])
  {
    ChrConsumes(pred);
    if |s| > 0 && pred(s[0]) {
      ManyClass(pred, s);
      PlusIsMany(Chr(pred), s);
    }
  }

  /** Once the first repetition succeeds, one-or-more is zero-or-more. */
  lemma PlusIsMany<A>(p: Parser<A>, s: string)
    requires Consumes(p) && p(s).Some?
    ensures Plus(p, s) == Some(Many(p, s))
  {
  }

  /** Repetition only depends on what the repeated parser does. */
  lemma {:induction false} ManyAgree<A>(p: Parser<A>, q: Parser<A>, s: string)
    requires Consumes(p) && Consumes(q)
    requires forall t :: p(t) == q(t)
    ensures Many(p, s) == Many(q, s)
    decreases |s|
  {
    if p(s).Some? {
      ManyAgree(p, q, p(s).value.1);
    }
  }

  lemma PlusAgree<A>(p: Parser<A>, q: Parser<A>, s: string)
    requires Consumes(p) && Consumes(q)
    requires forall t :: p(t) == q(t)
    ensures Plus(p, s) == Plus(q, s)
  {
    if p(s).Some? {
      ManyAgree(p, q, p(s).value.1);
    }
  }

  /** Ordered choice of two classes is the class of their union. */
  lemma AltClass(a: char -> bool, b: char -> bool, u: char -> bool)
    requires forall c :: u(c) == (a(c) || b(c))
    ensures forall t :: Alt(Chr(a), Chr(b))(t) == Chr(u)(t)
    ensures Consumes(Alt(Chr(a), Chr(b)))
  {
  }

  /** The look-ahead succeeds exactly when the wrapped parser does, and it
      never consumes input. */
  lemma AndLooksAhead<A>(p: Parser<A>, s: string)
    ensures And(p)(s).Some? <==> p(s).Some?
    ensures And(p)(s).Some? ==> And(p)(s).value.1 == s
  {
  }

  /** A look-ahead of a look-ahead is the same look-ahead. */
  lemma AndIdempotent<A>(p: Parser<A>, s: string)
    ensures And(And(p))(s) == And(p)(s)
  {
  }

  /** A literal matches exactly when the input starts with it. */
  lemma LitMatches(w: string, t: string)
    ensures Lit(w)(w + t) == Some(((), t))
  {
    assert (w + t)[..|w|] == w;
    assert (w + t)[|w|..] == t;
  }
}
