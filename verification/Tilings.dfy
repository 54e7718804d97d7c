/** Run-length tilings: a sequence of `(stamp, len)` runs stands for the flat
    per-byte sequence it expands to. Blame maps, authorship tilings and span lists
    of the engine are all read through `Expand`. */
module Tilings {

  datatype Option<+T> = None | Some(value: T)

  function Find<K, V>(m: map<K, V>, k: K): Option<V> {
    if k in m then Some(m[k]) else None
  }

  ghost function Min(a: nat, b: nat): nat { if a < b then a else b }

  ghost function Max(a: nat, b: nat): nat { if a < b then b else a }

  datatype Run<+S> = Run(stamp: S, len: nat)

  ghost function Repeat<S>(stamp: S, n: nat): (r: seq<S>)
    ensures |r| == n
    ensures forall i | 0 <= i < n :: r[i] == stamp
  {
    if n == 0 then [] else [stamp] + Repeat(stamp, n - 1)
  }

  /** The stamp of every byte, in order. */
  ghost function Expand<S>(runs: seq<Run<S>>): seq<S> {
    if runs == [] then [] else Repeat(runs[0].stamp, runs[0].len) + Expand(runs[1..])
  }

  function Total<S>(runs: seq<Run<S>>): nat {
    if runs == [] then 0 else runs[0].len + Total(runs[1..])
  }

  /** No empty run, no two neighbours with one stamp. */
  ghost predicate Canonical<S>(runs: seq<Run<S>>) {
    && (forall i | 0 <= i < |runs| :: runs[i].len > 0)
    && (forall i | 0 < i < |runs| :: runs[i-1].stamp != runs[i].stamp)
  }

  /** Append a run, merging it into the previous one when the stamps match. */
  function Push<S(==)>(out: seq<Run<S>>, stamp: S, len: nat): (r: seq<Run<S>>)
    ensures Canonical(out) ==> Canonical(r)
  {
    if len == 0 then out
    else if |out| > 0 && out[|out|-1].stamp == stamp then
      out[|out|-1 := Run(stamp, out[|out|-1].len + len)]
    else out + [Run(stamp, len)]
  }

  /** Drop empty runs and merge equal neighbours. */
  function Coalesce<S(==)>(runs: seq<Run<S>>): (r: seq<Run<S>>)
    ensures Canonical(r)
  {
    if runs == [] then []
    else
      var last := runs[|runs|-1];
      Push(Coalesce(runs[..|runs|-1]), last.stamp, last.len)
  }

  // ----- laws

  lemma {:induction false} ExpandLength<S>(runs: seq<Run<S>>)
    ensures |Expand(runs)| == Total(runs)
  {
    if runs == [] {
    } else {
      ExpandLength(runs[1..]);
    }
  }

  lemma {:induction false} ExpandAppend<S>(a: seq<Run<S>>, b: seq<Run<S>>)
    ensures Expand(a + b) == Expand(a) + Expand(b)
    ensures Total(a + b) == Total(a) + Total(b)
  {
    if a == [] {
      assert a + b == b;
    } else {
      assert (a + b)[1..] == a[1..] + b;
      ExpandAppend(a[1..], b);
    }
  }

  lemma ExpandOne<S>(run: Run<S>)
    ensures Expand([run]) == Repeat(run.stamp, run.len)
    ensures Total([run]) == run.len
  {
    assert [run][1..] == [];
  }

  /** Appending a run appends its bytes, whether or not it was merged. */
  lemma ExpandPush<S>(out: seq<Run<S>>, stamp: S, len: nat)
    ensures Expand(Push(out, stamp, len)) == Expand(out) + Repeat(stamp, len)
    ensures Total(Push(out, stamp, len)) == Total(out) + len
  {
    if len == 0 {
    } else if |out| > 0 && out[|out|-1].stamp == stamp {
      var init, last := out[..|out|-1], out[|out|-1];
      var wide := Run(stamp, last.len + len);
      assert out == init + [last];
      assert Push(out, stamp, len) == init + [wide];
      ExpandAppend(init, [last]);
      ExpandAppend(init, [wide]);
      ExpandOne(last);
      ExpandOne(wide);
      assert Repeat(stamp, last.len + len) == Repeat(stamp, last.len) + Repeat(stamp, len);
    } else {
      ExpandAppend(out, [Run(stamp, len)]);
      ExpandOne(Run(stamp, len));
    }
  }

  /** Coalescing changes no byte's stamp. */
  lemma {:induction false} ExpandCoalesce<S>(runs: seq<Run<S>>)
    ensures Expand(Coalesce(runs)) == Expand(runs)
  {
    if runs == [] {
    } else {
      var init, last := runs[..|runs|-1], runs[|runs|-1];
      ExpandCoalesce(init);
      assert runs == init + [last];
      ExpandAppend(init, [last]);
      ExpandOne(last);
      ExpandPush(Coalesce(init), last.stamp, last.len);
    }
  }

  /** A canonical tiling is the only canonical spelling of its bytes. */
  lemma {:induction false} CanonicalUnique<S>(a: seq<Run<S>>, b: seq<Run<S>>)
    requires Canonical(a) && Canonical(b)
    requires Expand(a) == Expand(b)
    ensures a == b
  {
    ExpandLength(a);
    ExpandLength(b);
    if a != [] && b != [] {
      SameFirstRun(a, b);
      assert Expand(a[1..]) == Expand(a)[a[0].len..] == Expand(b)[b[0].len..] == Expand(b[1..]);
      TailCanonical(a);
      TailCanonical(b);
      CanonicalUnique(a[1..], b[1..]);
      assert a == [a[0]] + a[1..] && b == [b[0]] + b[1..];
    }
  }

  lemma TailCanonical<S>(a: seq<Run<S>>)
    requires Canonical(a) && a != []
    ensures Canonical(a[1..])
  {
    forall i | 0 < i < |a[1..]|
      ensures a[1..][i-1].stamp != a[1..][i].stamp
    {
      assert a[(i+1)-1].stamp != a[i+1].stamp;
    }
  }

  /** The byte after a canonical tiling's first run starts another stamp. */
  lemma AfterFirstRun<S>(a: seq<Run<S>>)
    requires Canonical(a) && a != []
    ensures a[0].len <= |Expand(a)|
    ensures forall i | 0 <= i < a[0].len :: Expand(a)[i] == a[0].stamp
    ensures |a| > 1 ==> a[0].len < |Expand(a)| && Expand(a)[a[0].len] == a[1].stamp != a[0].stamp
    ensures |a| == 1 ==> |Expand(a)| == a[0].len
  {
    if |a| > 1 {
      assert Expand(a[1..])[0] == a[1].stamp;
      assert a[1-1].stamp != a[1].stamp;
    } else {
      assert a[1..] == [];
    }
  }

  lemma SameFirstRun<S>(a: seq<Run<S>>, b: seq<Run<S>>)
    requires Canonical(a) && Canonical(b) && a != [] && b != []
    requires Expand(a) == Expand(b)
    ensures a[0] == b[0]
  {
    AfterFirstRun(a);
    AfterFirstRun(b);
    assert Expand(a)[0] == a[0].stamp == b[0].stamp;
  }

  /** The two spellings agree on every byte exactly when they coalesce alike. */
  lemma SameBytesIffSameCoalesced<S>(a: seq<Run<S>>, b: seq<Run<S>>)
    ensures Expand(a) == Expand(b) <==> Coalesce(a) == Coalesce(b)
  {
    ExpandCoalesce(a);
    ExpandCoalesce(b);
    if Expand(a) == Expand(b) {
      CanonicalUnique(Coalesce(a), Coalesce(b));
    }
  }

  lemma {:induction false} ExpandSplit<S>(runs: seq<Run<S>>, k: nat)
    requires k <= |runs|
    ensures Expand(runs) == Expand(runs[..k]) + Expand(runs[k..])
    ensures Total(runs) == Total(runs[..k]) + Total(runs[k..])
  {
    assert runs == runs[..k] + runs[k..];
    ExpandAppend(runs[..k], runs[k..]);
  }

  lemma Concat3<S>(a: seq<S>, b: seq<S>, c: seq<S>)
    ensures (a + b) + c == a + (b + c)
  {
  }

  lemma ExpandEmpty<S>()
    ensures Expand<S>([]) == []
    ensures Canonical<S>([])
  {
  }

  lemma ExpandAt<S>(runs: seq<Run<S>>, at: nat, off: nat)
    requires at < |runs| && off < runs[at].len
    ensures Total(runs[..at]) + off < |Expand(runs)|
    ensures Expand(runs)[Total(runs[..at]) + off] == runs[at].stamp
  {
    ExpandSplit(runs, at);
    ExpandLength(runs[..at]);
    assert runs[at..][0] == runs[at];
  }

  lemma TotalPrefix<S>(runs: seq<Run<S>>, at: nat)
    requires at < |runs|
    ensures Total(runs[..at+1]) == Total(runs[..at]) + runs[at].len
  {
    assert runs[..at+1] == runs[..at] + [runs[at]];
    ExpandAppend(runs[..at], [runs[at]]);
    ExpandOne(runs[at]);
  }

  lemma TotalWhole<S>(runs: seq<Run<S>>, at: nat)
    requires at <= |runs|
    ensures Total(runs[..at]) <= Total(runs) == |Expand(runs)|
    ensures at == 0 ==> Total(runs[..at]) == 0
    ensures at == |runs| ==> Total(runs[..at]) == Total(runs)
  {
    ExpandSplit(runs, at);
    ExpandLength(runs);
    if at == |runs| {
      assert runs[..at] == runs;
    }
  }

  lemma ExpandPrefix<S>(runs: seq<Run<S>>, k: nat)
    requires k < |runs|
    ensures Expand(runs[..k+1]) == Expand(runs[..k]) + Repeat(runs[k].stamp, runs[k].len)
  {
    hide Expand, Repeat;
    assert runs[..k+1] == runs[..k] + [runs[k]];
    ExpandAppend(runs[..k], [runs[k]]);
    ExpandOne(runs[k]);
  }

  lemma RepeatStep<S>(stamp: S, n: nat)
    ensures Repeat(stamp, n) == if n == 0 then [] else [stamp] + Repeat(stamp, n - 1)
  {
  }
}
