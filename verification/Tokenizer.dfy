/** strtok over strsep, strpbrk and __strxspn: a tokenizer that remembers where
    it is between calls and cuts the buffer into its tokens in place. */
module Tokenizer {
  import opened ByteText
  import opened Machine

  const UCHAR_MAX: nat := 255

  // ------------------------------------------------------------- the meaning

  ghost predicate AllIn(s: seq<Byte>, delim: ByteString, from: nat, end: nat) {
    forall k :: from <= k < end && k < |s| ==> s[k] in delim
  }

  ghost predicate NoneIn(s: seq<Byte>, delim: ByteString, from: nat, end: nat) {
    forall k :: from <= k < end && k < |s| ==> s[k] !in delim
  }

  /** A maximal delimiter-free piece, not empty, of the string `s[p..end]`. */
  ghost predicate IsPiece(s: seq<Byte>, delim: ByteString, p: nat, end: nat, a: nat, b: nat) {
    && p <= a < b <= end < |s|
    && NoneIn(s, delim, a, b)
    && (a == p || s[a - 1] in delim)
    && (b == end || s[b] in delim)
  }

  /** `t` is `s` with every delimiter of `s[from..stop]` replaced by NUL. */
  ghost predicate IsCut(t: seq<Byte>, s: seq<Byte>, delim: ByteString, from: nat, stop: nat) {
    && |t| == |s|
    && forall k :: 0 <= k < |s| ==> t[k] == if from <= k < stop && s[k] in delim then 0 else s[k]
  }

  lemma CutAgain(u: seq<Byte>, t: seq<Byte>, s: seq<Byte>, delim: ByteString, from: nat, mid: nat, stop: nat)
    requires from <= mid <= stop && IsCut(t, s, delim, from, mid) && IsCut(u, t, delim, mid, stop)
    ensures IsCut(u, s, delim, from, stop)
  {
  }

  /** Past a cut the string is as it was, and an empty field ends at its delimiter. */
  lemma Onward(t: seq<Byte>, s: seq<Byte>, delim: ByteString, from: nat, a: nat, stop: nat, end: nat)
    requires IsString(s, from, end) && IsCut(t, s, delim, from, stop + 1)
    requires from <= a <= stop <= end && NoneIn(s, delim, a, stop)
    requires stop == end || s[stop] in delim
    ensures t[a] == 0 <==> a == stop
    ensures stop < end ==> IsString(t, stop + 1, end)
    ensures forall k :: stop < k < |s| ==> t[k] == s[k]
    ensures forall i, j: nat :: i > stop ==>
      (AllIn(t, delim, i, j) <==> AllIn(s, delim, i, j)) && (NoneIn(t, delim, i, j) <==> NoneIn(s, delim, i, j))
  {
  }

  /** Of the pieces that begin between a place where a piece may begin and the
      next delimiter past other bytes, there is one: past the delimiters there. */
  lemma NextPiece(s: seq<Byte>, delim: ByteString, p: nat, end: nat, from: nat, a: nat, b: nat)
    requires p <= from <= a < b <= end < |s|
    requires AllIn(s, delim, from, a) && NoneIn(s, delim, a, b)
    requires from == p || s[from - 1] in delim
    requires b == end || s[b] in delim
    ensures forall c, d: nat :: from <= c <= b ==> (IsPiece(s, delim, p, end, c, d) <==> c == a && d == b)
  {
    assert a > from ==> s[a - 1] in delim;
    forall c, d: nat | from <= c <= b && IsPiece(s, delim, p, end, c, d) ensures c == a && d == b {
      assert s[c] !in delim;
    }
  }

  lemma NoPiece(s: seq<Byte>, delim: ByteString, p: nat, end: nat, from: nat)
    requires AllIn(s, delim, from, end)
    ensures forall c, d: nat :: from <= c ==> !IsPiece(s, delim, p, end, c, d)
  {
    forall c, d: nat | from <= c ensures !IsPiece(s, delim, p, end, c, d) {
      assert c < end && c < |s| ==> s[c] in delim;
    }
  }

  /** In the cut buffer every piece stands as a C string of its own. */
  lemma PieceIsString(t: seq<Byte>, s: seq<Byte>, delim: ByteString, p: nat, end: nat, a: nat, b: nat)
    requires IsString(s, p, end) && IsCut(t, s, delim, p, end) && IsPiece(s, delim, p, end, a, b)
    ensures IsString(t, a, b) && t[a..b] == s[a..b]
  {
    assert forall k :: a <= k < b ==> t[k] == s[k];
  }

  /** The places of the pieces that begin before `cursor`: all, and in order. */
  ghost predicate Collected(tokens: seq<nat>, s: seq<Byte>, delim: ByteString, p: nat, end: nat, cursor: nat) {
    && (forall i, j :: 0 <= i < j < |tokens| ==> tokens[i] < tokens[j])
    && (forall a: nat :: a in tokens <==> a < cursor && exists b: nat :: IsPiece(s, delim, p, end, a, b))
  }

  lemma CollectNone(s: seq<Byte>, delim: ByteString, p: nat, end: nat)
    ensures Collected([], s, delim, p, end, p)
  {
  }

  /** Past the cursor there is nothing but delimiters. */
  lemma CollectRest(tokens: seq<nat>, s: seq<Byte>, delim: ByteString, p: nat, end: nat, from: nat)
    requires Collected(tokens, s, delim, p, end, from) && AllIn(s, delim, from, end)
    ensures Collected(tokens, s, delim, p, end, end)
  {
    NoPiece(s, delim, p, end, from);
  }

  lemma CollectNext(tokens: seq<nat>, s: seq<Byte>, delim: ByteString, p: nat, end: nat, from: nat, a: nat, b: nat)
    requires Collected(tokens, s, delim, p, end, from) && from <= a < b
    requires forall c, d: nat :: from <= c <= b ==> (IsPiece(s, delim, p, end, c, d) <==> c == a && d == b)
    ensures Collected(tokens + [a], s, delim, p, end, b + 1)
  {
    hide IsPiece;
    assert forall i :: 0 <= i < |tokens| ==> tokens[i] in tokens;
    assert IsPiece(s, delim, p, end, a, b);
  }

  // ----------------------------------------------------------------- the code

  /** How far the string at `s` runs in bytes of `text` (parity 0) or in bytes
      outside it (parity 1); the NUL always ends the run. */
  method Strxspn(mem: array<Byte>, s: nat, text: ByteString, parity: nat, ghost end: nat) returns (n: nat)
    requires IsString(mem[..], s, end) && parity < 2
    ensures s + n <= end
    ensures forall k :: s <= k < s + n ==> (mem[k] in text) == (parity == 0)
    ensures s + n < end ==> (mem[s + n] in text) == (parity == 1)
  {
    var matchmap := new nat[UCHAR_MAX + 1](_ => 0);
    var i := 0;
    while i < |text|
      invariant i <= |text|
      invariant forall c: Byte :: matchmap[c] == if c in text[..i] then 1 else 0
      modifies matchmap
    {
      matchmap[text[i]] := 1;
      i := i + 1;
    }
    assert text[..i] == text;
    matchmap[0] := parity;
    n := 0;
    // exclusive or of two bits
    while matchmap[mem[s + n]] != parity
      invariant s + n <= end
      invariant forall k :: s <= k < s + n ==> (mem[k] in text) == (parity == 0)
      decreases end - (s + n)
    {
      n := n + 1;
    }
  }

  /** The first byte of the string at `s` that is in `accept`. */
  method Strpbrk(mem: array<Byte>, s: nat, accept: ByteString, ghost end: nat) returns (r: Pointer)
    requires IsString(mem[..], s, end)
    ensures r.Null? ==> NoneIn(mem[..], accept, s, end)
    ensures r.At? ==> s <= r.offset < end && mem[r.offset] in accept && NoneIn(mem[..], accept, s, r.offset)
  {
    var n := Strxspn(mem, s, accept, 1, end);
    r := if mem[s + n] != 0 then At(s + n) else Null;
  }

  class Strtok {
    const mem: array<Byte>
    var holder: Pointer

    constructor (mem: array<Byte>)
      ensures this.mem == mem && holder == Null
    {
      this.mem := mem;
      holder := Null;
    }

    /** What strsep and strtok demand of the cursor they move. */
    ghost predicate Ready(s: Pointer, end: nat)
      reads mem
    {
      s.At? ==> IsString(mem[..], s.offset, end)
    }

    /** One field of the string at the cursor, cut off at `stop`. */
    method Strsep(delim: ByteString, ghost end: nat) returns (s: Pointer, ghost stop: nat)
      requires Ready(holder, end)
      modifies `holder, mem
      ensures s == old(holder)
      ensures s.Null? ==> stop == end && holder.Null? && mem[..] == old(mem[..])
      ensures s.At? ==>
        && s.offset <= stop <= end
        && NoneIn(old(mem[..]), delim, s.offset, stop)
        && IsCut(mem[..], old(mem[..]), delim, s.offset, stop + 1)
        && (if stop == end then holder.Null?
            else old(mem[..])[stop] in delim && holder == At(stop + 1))
    {
      s, stop := holder, end;
      if s.Null? {
        return;
      }
      var e := Strpbrk(mem, s.offset, delim, end);
      if e.At? {
        stop := e.offset;
        mem[e.offset] := 0;
        e := At(e.offset + 1);
      }
      holder := e;
    }

    /** The next token: past the delimiters at the cursor, up to `stop`, cut off
        there. NULL when nothing but delimiters is left, and from then on. */
    method Next(start: Pointer, delim: ByteString, ghost end: nat) returns (s: Pointer, ghost stop: nat)
      requires Ready(if start.At? then start else holder, end)
      modifies `holder, mem
      ensures var from := if start.At? then start else old(holder);
        && (from.Null? ==> s.Null? && stop == end && holder.Null? && mem[..] == old(mem[..]))
        && (from.At? ==> IsCut(mem[..], old(mem[..]), delim, from.offset, stop + 1))
        && (from.At? && s.Null? ==>
              stop == end && holder.Null? && AllIn(old(mem[..]), delim, from.offset, end))
        && (from.At? && s.At? ==>
              && from.offset <= s.offset < stop <= end
              && AllIn(old(mem[..]), delim, from.offset, s.offset)
              && NoneIn(old(mem[..]), delim, s.offset, stop)
              && (if stop == end then holder.Null?
                  else old(mem[..])[stop] in delim && holder == At(stop + 1)))
    {
      hide IsCut, NoneIn;
      if start.At? {
        holder := start;
      }
      ghost var from := holder;
      ghost var text := mem[..];
      s, stop := Strsep(delim, end);
      while s.At? && mem[s.offset] == 0
        invariant from.Null? ==> s.Null? && stop == end && holder.Null? && mem[..] == text
        invariant from.At? ==> from.offset <= stop <= end && IsCut(mem[..], text, delim, from.offset, stop + 1)
        invariant from.At? && s.Null? ==>
          stop == end && holder.Null? && AllIn(text, delim, from.offset, end)
        invariant from.At? && s.At? ==>
          && from.offset <= s.offset <= stop
          && AllIn(text, delim, from.offset, s.offset)
          && NoneIn(text, delim, s.offset, stop)
          && (if stop == end then holder.Null? else text[stop] in delim && holder == At(stop + 1))
        decreases if holder.At? then end + 1 - holder.offset else 0, s.At?
      {
        ghost var mid, before := stop, mem[..];
        Onward(before, text, delim, from.offset, s.offset, stop, end);
        s, stop := Strsep(delim, end);
        if s.At? {
          CutAgain(mem[..], before, text, delim, from.offset, mid + 1, stop + 1);
        }
      }
      if s.At? {
        Onward(mem[..], text, delim, from.offset, s.offset, stop, end);
      }
    }

    // ----------------------------------------------------------- a full run

    /** A first call with a string, then calls with NULL until NULL comes back:
        the tokens are exactly the maximal delimiter-free pieces, in order; every
        delimiter of the string is NUL afterwards and nothing else has changed;
        and the cursor is NULL, so any further call answers NULL. */
    method Tokens(p: nat, delim: ByteString, ghost end: nat) returns (tokens: seq<nat>)
      requires IsString(mem[..], p, end)
      modifies `holder, mem
      ensures Collected(tokens, old(mem[..]), delim, p, end, end)
      ensures IsCut(mem[..], old(mem[..]), delim, p, end)
      ensures holder.Null?
    {
      ghost var text := mem[..];
      hide IsPiece, Collected, IsCut, IsString, AllIn, NoneIn;
      CollectNone(text, delim, p, end);
      tokens := [];
      ghost var from := p;
      var s, stop := Next(At(p), delim, end);
      while s.At?
        invariant p <= stop <= end
        invariant p <= from <= end + 1 && (from == p || from == end + 1 || text[from - 1] in delim)
        invariant Collected(tokens, text, delim, p, end, from)
        invariant IsCut(mem[..], text, delim, p, stop + 1)
        invariant s.Null? ==> stop == end && holder.Null? && AllIn(text, delim, from, end)
        invariant s.At? ==>
          && from <= s.offset < stop <= end
          && AllIn(text, delim, from, s.offset)
          && NoneIn(text, delim, s.offset, stop)
          && (if stop == end then holder.Null? else text[stop] in delim && holder == At(stop + 1))
        decreases if s.At? then end + 1 - from else -1
      {
        NextPiece(text, delim, p, end, from, s.offset, stop);
        CollectNext(tokens, text, delim, p, end, from, s.offset, stop);
        Onward(mem[..], text, delim, p, s.offset, stop, end);
        tokens := tokens + [s.offset];
        from := stop + 1;
        ghost var before := mem[..];
        s, stop := Next(Null, delim, end);
        CutAgain(mem[..], before, text, delim, p, from, stop + 1);
      }
      CollectRest(tokens, text, delim, p, end, from);
    }
  }
}
