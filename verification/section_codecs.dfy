/** The sections of the save file whose own Read/Write code is not part of
    this model (header, skills, appearances, locations, mercenary, quests,
    waypoints, NPC dialog, attributes, class skills, item lists, corpse
    list, mercenary item list, golem). Each is represented only by its pair
    of operations, passed in as a `Codec`, together with the assumption
    under which the save file is proved to round-trip: that the section's
    decoder inverts its encoder on a prefix of the buffer. */
module SectionCodecs {
  import opened Wrappers
  import opened Bytes

  /** A section's Read and Write. `decode` reads under the context `D` the
      C# reader passes to Read (a class id, a format version, ...); `encode`
      writes under the context `E` passed to Write; `fits(d, x)` says that
      `x` is a value the section can hold when read under `d`. */
  datatype Codec<!D, !E, !T> = Codec(
    decode: (D, seq<byte>) -> Option<(T, seq<byte>)>,
    encode: (E, T) -> seq<byte>,
    fits: (D, T) -> bool)

  /** Assumption about an opaque section whose Write receives the context
      its Read received: decoding what was encoded gives the value back and
      leaves exactly what followed. */
  ghost predicate Inverts<D(!new), T(!new)>(c: Codec<D, D, T>)
  {
    forall d, x, rest :: c.fits(d, x) ==> c.decode(d, c.encode(d, x) + rest) == Some((x, rest))
  }

  /** Assumption about an opaque section whose Write receives the context
      its Read received: a successful decode consumed exactly the encoding
      of a value the section can hold. */
  ghost predicate Canonical<D(!new), T>(c: Codec<D, D, T>)
  {
    forall d, s :: c.decode(d, s).Some? ==>
      && c.fits(d, c.decode(d, s).value.0)
      && s == c.encode(d, c.decode(d, s).value.0) + c.decode(d, s).value.1
  }

  /** `Inverts` for a section read under a context but written without one. */
  ghost predicate InvertsUnderReadContext<D(!new), T(!new)>(c: Codec<D, (), T>)
  {
    forall d, x, rest :: c.fits(d, x) ==> c.decode(d, c.encode((), x) + rest) == Some((x, rest))
  }

  /** `Canonical` for a section read under a context but written without one. */
  ghost predicate CanonicalUnderReadContext<D(!new), T>(c: Codec<D, (), T>)
  {
    forall d, s :: c.decode(d, s).Some? ==>
      && c.fits(d, c.decode(d, s).value.0)
      && s == c.encode((), c.decode(d, s).value.0) + c.decode(d, s).value.1
  }

  lemma UseInverts<D(!new), T(!new)>(c: Codec<D, D, T>, d: D, x: T, rest: seq<byte>)
    requires Inverts(c) && c.fits(d, x)
    ensures c.decode(d, c.encode(d, x) + rest) == Some((x, rest))
  {
  }

  lemma UseCanonical<D(!new), T>(c: Codec<D, D, T>, d: D, s: seq<byte>)
    requires Canonical(c) && c.decode(d, s).Some?
    ensures c.fits(d, c.decode(d, s).value.0)
    ensures s == c.encode(d, c.decode(d, s).value.0) + c.decode(d, s).value.1
  {
  }

  lemma UseInvertsUnderReadContext<D(!new), T(!new)>(c: Codec<D, (), T>, d: D, x: T, rest: seq<byte>)
    requires InvertsUnderReadContext(c) && c.fits(d, x)
    ensures c.decode(d, c.encode((), x) + rest) == Some((x, rest))
  {
  }

  lemma UseCanonicalUnderReadContext<D(!new), T>(c: Codec<D, (), T>, d: D, s: seq<byte>)
    requires CanonicalUnderReadContext(c) && c.decode(d, s).Some?
    ensures c.fits(d, c.decode(d, s).value.0)
    ensures s == c.encode((), c.decode(d, s).value.0) + c.decode(d, s).value.1
  {
  }

  /** Reads `n` consecutive values of a context-free section (the loop that
      fills the assigned-skill array). */
  function ReadMany<T>(c: Codec<(), (), T>, n: nat, s: seq<byte>): (r: Option<(seq<T>, seq<byte>)>)
    ensures r.Some? ==> |r.value.0| == n
  {
    if n == 0 then Some(([], s))
    else
      var first :- c.decode((), s);
      var others :- ReadMany(c, n - 1, first.1);
      Some(([first.0] + others.0, others.1))
  }

  /** Writes the values one after the other, in order. */
  function WriteMany<T>(c: Codec<(), (), T>, xs: seq<T>): (s: seq<byte>)
  {
    if |xs| == 0 then [] else c.encode((), xs[0]) + WriteMany(c, xs[1..])
  }

  lemma {:induction false} ReadWriteMany<T(!new)>(c: Codec<(), (), T>, xs: seq<T>, rest: seq<byte>)
    requires Inverts(c)
    requires forall i :: 0 <= i < |xs| ==> c.fits((), xs[i])
    ensures ReadMany(c, |xs|, WriteMany(c, xs) + rest) == Some((xs, rest))
  {
    if |xs| > 0 {
      var tail := WriteMany(c, xs[1..]) + rest;
      assert WriteMany(c, xs) + rest == c.encode((), xs[0]) + tail;
      assert c.fits((), xs[0]);
      UseInverts(c, (), xs[0], tail);
      assert c.decode((), WriteMany(c, xs) + rest) == Some((xs[0], tail));
      ReadWriteMany(c, xs[1..], rest);
      assert ReadMany(c, |xs| - 1, tail) == Some((xs[1..], rest));
      assert [xs[0]] + xs[1..] == xs;
    } else {
      assert WriteMany(c, xs) + rest == rest;
    }
  }

  lemma {:induction false} WriteReadMany<T>(c: Codec<(), (), T>, n: nat, s: seq<byte>, xs: seq<T>, rest: seq<byte>)
    requires Canonical(c)
    requires ReadMany(c, n, s) == Some((xs, rest))
    ensures s == WriteMany(c, xs) + rest
    ensures forall i :: 0 <= i < |xs| ==> c.fits((), xs[i])
  {
    if n > 0 {
      var first := c.decode((), s).value;
      var others := ReadMany(c, n - 1, first.1).value;
      UseCanonical(c, (), s);
      WriteReadMany(c, n - 1, first.1, others.0, others.1);
      assert xs == [first.0] + others.0;
      assert xs[1..] == others.0;
    }
  }

  /** `w * i + w` stays within `w * n` for every index `i` below `n`. */
  lemma {:induction false} MulBelow(w: nat, i: nat, n: nat)
    requires i < n
    ensures w * i + w <= w * n
    decreases n - i
  {
    assert w * (i + 1) == w * i + w;
    if i + 1 < n {
      MulBelow(w, i + 1, n);
    }
  }

  /** When every value encodes to `w` bytes, value `i` of the run sits at
      bytes `w * i` up to `w * i + w`. */
  lemma {:induction false} WriteManyUniform<T>(c: Codec<(), (), T>, xs: seq<T>, w: nat)
    requires forall x :: |c.encode((), x)| == w
    ensures |WriteMany(c, xs)| == w * |xs|
    ensures forall i :: 0 <= i < |xs| ==> w * i + w <= |WriteMany(c, xs)|
    ensures forall i :: 0 <= i < |xs| ==> WriteMany(c, xs)[w * i..w * i + w] == c.encode((), xs[i])
  {
    if |xs| > 0 {
      var head := c.encode((), xs[0]);
      var tail := WriteMany(c, xs[1..]);
      WriteManyUniform(c, xs[1..], w);
      assert WriteMany(c, xs) == head + tail;
      assert |head| == w;
      assert w * |xs| == w + w * (|xs| - 1);
      forall i | 0 <= i < |xs|
        ensures w * i + w <= |WriteMany(c, xs)|
      {
        MulBelow(w, i, |xs|);
      }
      forall i | 0 <= i < |xs|
        ensures WriteMany(c, xs)[w * i..w * i + w] == c.encode((), xs[i])
      {
        if i == 0 {
          assert WriteMany(c, xs)[0..w] == head;
        } else {
          assert w * i == w + w * (i - 1);
          assert xs[i] == xs[1..][i - 1];
          assert WriteMany(c, xs)[w * i..w * i + w] == tail[w * (i - 1)..w * (i - 1) + w];
        }
      }
    }
  }
}
