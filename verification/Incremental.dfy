/**
 Incremental decoding of a byte stream, for any decoder that looks at the bytes it has and
 either waits, takes a prefix, or rejects the stream for good. Both stream decoders of the
 system (the console's frame parser and the simulator's WebSocket decoder) have this shape.
 */
module Incremental {
  import opened Seqs

  datatype Verdict<S, O, E> =
    | Wait
    | Reject(error: E)
    | Take(size: nat, out: seq<O>, next: S)

  /** Taking always consumes something that is there. */
  ghost predicate Progressing<S(!new), B(!new), O, E>(look: (S, seq<B>) -> Verdict<S, O, E>) {
    forall st, s :: look(st, s).Take? ==> 0 < look(st, s).size <= |s|
  }

  /** More input never changes a decision once it is made. */
  ghost predicate Stable<S(!new), B(!new), O, E>(look: (S, seq<B>) -> Verdict<S, O, E>) {
    forall st, a, b :: !look(st, a).Wait? ==> look(st, a + b) == look(st, a)
  }

  datatype End<S, B, E> = Open(st: S, rest: seq<B>) | Closed(error: E)

  datatype Run<S, B, O, E> = Run(out: seq<O>, end: End<S, B, E>)

  /** Decodes as far as the bytes allow. */
  ghost function Drive<S(!new), B(!new), O, E>(look: (S, seq<B>) -> Verdict<S, O, E>, st: S, s: seq<B>)
    : Run<S, B, O, E>
    requires Progressing(look)
    decreases |s|
  {
    match look(st, s)
    case Wait => Run([], Open(st, s))
    case Reject(e) => Run([], Closed(e))
    case Take(n, out, next) =>
      var later := Drive(look, next, s[n..]);
      Run(out + later.out, later.end)
  }

  /** Feeds one chunk; a rejected stream stays rejected and takes nothing more in. */
  ghost function Feed<S(!new), B(!new), O, E>(look: (S, seq<B>) -> Verdict<S, O, E>, end: End<S, B, E>,
                                              chunk: seq<B>): Run<S, B, O, E>
    requires Progressing(look)
  {
    match end
    case Open(st, rest) => Drive(look, st, rest + chunk)
    case Closed(e) => Run([], Closed(e))
  }

  ghost function FeedAll<S(!new), B(!new), O, E>(look: (S, seq<B>) -> Verdict<S, O, E>, end: End<S, B, E>,
                                                 chunks: seq<seq<B>>): Run<S, B, O, E>
    requires Progressing(look)
    decreases |chunks|
  {
    if chunks == [] then Run([], end)
    else
      var first := Feed(look, end, chunks[0]);
      var later := FeedAll(look, first.end, chunks[1..]);
      Run(first.out + later.out, later.end)
  }

  /** What is kept between chunks is undecided. */
  ghost predicate Settled<S(!new), B(!new), O, E>(look: (S, seq<B>) -> Verdict<S, O, E>, end: End<S, B, E>) {
    end.Open? ==> look(end.st, end.rest).Wait?
  }

  lemma {:induction false} DriveSettles<S(!new), B(!new), O, E>(
      look: (S, seq<B>) -> Verdict<S, O, E>, st: S, s: seq<B>)
    requires Progressing(look)
    ensures Settled(look, Drive(look, st, s).end)
    decreases |s|
  {
    match look(st, s)
    case Wait =>
    case Reject(_) =>
    case Take(n, _, next) => DriveSettles(look, next, s[n..]);
  }

  lemma DriveTakes<S(!new), B(!new), O, E>(look: (S, seq<B>) -> Verdict<S, O, E>, st: S, s: seq<B>)
    requires Progressing(look) && look(st, s).Take?
    ensures
      var later := Drive(look, look(st, s).next, s[look(st, s).size..]);
      Drive(look, st, s) == Run(look(st, s).out + later.out, later.end)
  {
  }

  /** Decoding a prefix first and the rest later is decoding everything at once. */
  lemma {:induction false} DriveConcat<S(!new), B(!new), O, E>(
      look: (S, seq<B>) -> Verdict<S, O, E>, st: S, a: seq<B>, b: seq<B>)
    requires Progressing(look) && Stable(look)
    ensures
      var first := Drive(look, st, a);
      var later := Feed(look, first.end, b);
      Drive(look, st, a + b) == Run(first.out + later.out, later.end)
    decreases |a|
  {
    if !look(st, a).Wait? {
      assert look(st, a + b) == look(st, a);
      if look(st, a).Take? {
        var v := look(st, a);
        assert (a + b)[v.size..] == a[v.size..] + b;
        DriveTakes(look, st, a);
        DriveTakes(look, st, a + b);
        DriveConcat(look, v.next, a[v.size..], b);
        var rest := Drive(look, v.next, a[v.size..]);
        ConcatAssociates(v.out, rest.out, Feed(look, rest.end, b).out);
      }
    }
  }

  /** The general chunking theorem: cutting the stream differently changes nothing. */
  lemma {:induction false} ChunkingInvariance<S(!new), B(!new), O, E>(
      look: (S, seq<B>) -> Verdict<S, O, E>, end: End<S, B, E>, chunks: seq<seq<B>>)
    requires Progressing(look) && Stable(look)
    requires Settled(look, end)
    ensures FeedAll(look, end, chunks) == Feed(look, end, Joined(chunks))
    decreases |chunks|
  {
    if chunks == [] {
      if end.Open? {
        assert end.rest + [] == end.rest;
      }
    } else {
      var first := Feed(look, end, chunks[0]);
      var others := Joined(chunks[1..]);
      if end.Open? {
        var s := end.rest + chunks[0];
        DriveSettles(look, end.st, s);
        DriveConcat(look, end.st, s, others);
        assert s + others == end.rest + (chunks[0] + others);
      }
      ChunkingInvariance(look, first.end, chunks[1..]);
    }
  }

  /** `done` accounts for the input before `pos`; the rest is still to be decoded. */
  ghost predicate Reached<S(!new), B(!new), O, E>(look: (S, seq<B>) -> Verdict<S, O, E>, st: S, s: seq<B>,
                                                  pos: nat, st': S, done: seq<O>)
  {
    && Progressing(look)
    && pos <= |s|
    && var later := Drive(look, st', s[pos..]);
    Drive(look, st, s) == Run(done + later.out, later.end)
  }

  lemma ReachedStart<S(!new), B(!new), O, E>(look: (S, seq<B>) -> Verdict<S, O, E>, st: S, s: seq<B>)
    requires Progressing(look)
    ensures Reached(look, st, s, 0, st, [])
  {
    var run := Drive(look, st, s);
    assert s[0..] == s && [] + run.out == run.out;
  }

  lemma ReachedStep<S(!new), B(!new), O, E>(look: (S, seq<B>) -> Verdict<S, O, E>, st: S, s: seq<B>,
                                            pos: nat, st': S, done: seq<O>)
    requires Reached(look, st, s, pos, st', done) && look(st', s[pos..]).Take?
    ensures
      var v := look(st', s[pos..]);
      Reached(look, st, s, pos + v.size, v.next, done + v.out)
  {
    var v := look(st', s[pos..]);
    var later := Drive(look, v.next, s[pos..][v.size..]);
    assert s[pos..][v.size..] == s[pos + v.size..];
    assert done + (v.out + later.out) == (done + v.out) + later.out;
  }

  lemma ReachedEnd<S(!new), B(!new), O, E>(look: (S, seq<B>) -> Verdict<S, O, E>, st: S, s: seq<B>,
                                           pos: nat, st': S, done: seq<O>)
    requires Reached(look, st, s, pos, st', done) && !look(st', s[pos..]).Take?
    ensures Drive(look, st, s).out == done
    ensures Drive(look, st, s).end ==
            if look(st', s[pos..]).Wait? then Open(st', s[pos..]) else Closed(look(st', s[pos..]).error)
  {
    assert done + [] == done;
  }

  /** The outputs remember the bytes they were made from. */
  ghost predicate Faithful<S(!new), B(!new), O, E>(look: (S, seq<B>) -> Verdict<S, O, E>, raw: O -> seq<B>) {
    forall st, s :: look(st, s).Take? && look(st, s).size <= |s| ==>
      FlatMap(raw, look(st, s).out) == s[..look(st, s).size]
  }

  /** No byte is lost, duplicated or moved. */
  lemma {:induction false} DriveConserves<S(!new), B(!new), O, E>(
      look: (S, seq<B>) -> Verdict<S, O, E>, raw: O -> seq<B>, st: S, s: seq<B>)
    requires Progressing(look) && Faithful(look, raw)
    requires Drive(look, st, s).end.Open?
    ensures FlatMap(raw, Drive(look, st, s).out) + Drive(look, st, s).end.rest == s
    decreases |s|
  {
    if look(st, s).Take? {
      var v := look(st, s);
      var later := Drive(look, v.next, s[v.size..]);
      DriveConserves(look, raw, v.next, s[v.size..]);
      FlatMapConcat(raw, v.out, later.out);
      RejoinAt(s, v.size, FlatMap(raw, later.out), later.end.rest);
    }
  }
}
