/** Output into a buffer that may be too short: `o` counts every character,
    `q` only follows as far as there is room. */
module Output {
  import opened CText

  /** `now` is `was` with the first `n` characters of `text` laid over it from
      position `at`, and nothing else changed. */
  ghost predicate Placed(now: seq<char>, was: seq<char>, at: nat, n: nat, text: seq<char>) {
    && |now| == |was|
    && forall k :: 0 <= k < |now| ==>
         now[k] == if at <= k < at + n && k - at < |text| then text[k - at] else was[k]
  }

  /** The state of an output in progress: `out` is all text so far. */
  ghost predicate Cursor(buf: array<char>, was: seq<char>, at: nat, n: nat, q: nat, o: nat, out: seq<char>)
    reads buf
  {
    && (n > 0 ==> at + n <= buf.Length)
    && o == |out|
    && (o <= n ==> q == at + o)
    && Placed(buf[..], was, at, n, out)
  }

  lemma CursorStart(buf: array<char>, n: nat)
    requires n <= buf.Length
    ensures Cursor(buf, buf[..], 0, n, 0, 0, [])
  {
  }

  method Emit(buf: array<char>, q: nat, o: nat, n: nat, x: char,
              ghost was: seq<char>, ghost at: nat, ghost out: seq<char>)
    returns (q': nat, o': nat)
    requires Cursor(buf, was, at, n, q, o, out)
    modifies buf
    ensures Cursor(buf, was, at, n, q', o', out + [x])
  {
    q' := q;
    if o < n {
      buf[q] := x;
      q' := q + 1;
    }
    o' := o + 1;
  }

  /** A pad loop: `c` is emitted while `width` exceeds `bound`. */
  method EmitPad(buf: array<char>, q: nat, o: nat, n: nat, c: char, width: int, bound: int,
                 ghost was: seq<char>, ghost at: nat, ghost out: seq<char>)
    returns (q': nat, o': nat, width': int)
    requires Cursor(buf, was, at, n, q, o, out)
    modifies buf
    ensures Cursor(buf, was, at, n, q', o', out + Repeat(c, width - bound))
    ensures width' == if width > bound then bound else width
  {
    q', o', width' := q, o, width;
    ghost var done := 0;
    assert out + Repeat(c, 0) == out;
    while width' > bound
      invariant 0 <= done && width' == width - done
      invariant done > 0 ==> width' >= bound
      invariant Cursor(buf, was, at, n, q', o', out + Repeat(c, done))
    {
      q', o' := Emit(buf, q', o', n, c, was, at, out + Repeat(c, done));
      width' := width' - 1;
      done := done + 1;
      assert out + Repeat(c, done) == out + Repeat(c, done - 1) + [c];
    }
    assert Repeat(c, done) == Repeat(c, width - bound);
  }
}
