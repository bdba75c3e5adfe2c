/** strtok of lib-clib/src/strtok.cpp, which cuts a string into tokens in place and remembers
    where to go on in a static cursor. Addresses are indices into the memory. */
module Strtok {

  const NUL: char := '\0'

  datatype Pointer = Null | At(address: nat)

  // The addresses of a token's first character and of the one just after its last.
  datatype Token = Token(start: nat, stop: nat)

  /* ---- One call ---- */

  // The first NUL at or after p.
  function Terminator(memory: string, p: nat): (e: nat)
    requires p <= |memory|
    ensures p <= e <= |memory|
    ensures e < |memory| ==> memory[e] == NUL
    ensures forall k :: p <= k < e ==> memory[k] != NUL
    decreases |memory| - p
  {
    if p == |memory| || memory[p] == NUL then p else Terminator(memory, p + 1)
  }

  predicate IsString(memory: string, p: nat) {
    p <= |memory| && Terminator(memory, p) < |memory|
  }

  // The first address at or after p that holds no delimiter.
  function SkipDelimiters(memory: string, p: nat, delims: string): (i: nat)
    requires p <= |memory|
    ensures p <= i <= |memory|
    decreases |memory| - p
  {
    if p == |memory| || memory[p] !in delims then p else SkipDelimiters(memory, p + 1, delims)
  }

  // The first address at or after p that holds a delimiter or a NUL.
  function SkipToken(memory: string, p: nat, delims: string): (j: nat)
    requires p <= |memory|
    ensures p <= j <= |memory|
    decreases |memory| - p
  {
    if p == |memory| || memory[p] == NUL || memory[p] in delims then p else SkipToken(memory, p + 1, delims)
  }

  // What a call leaves behind: the token it returns, the cursor and the memory.
  datatype Outcome = Outcome(token: Pointer, last: Pointer, memory: string)

  function Next(memory: string, p: nat, delims: string): Outcome
    requires p <= |memory|
  {
    var i := SkipDelimiters(memory, p, delims);
    var j := SkipToken(memory, i, delims);
    if i == |memory| || memory[i] == NUL then Outcome(Null, Null, memory)
    else if j == |memory| || memory[j] == NUL then Outcome(At(i), Null, memory)
    else Outcome(At(i), At(j + 1), memory[j := NUL])
  }

  // A token as the standard has it: delimiter-free, and not to be extended either way.
  ghost predicate IsToken(memory: string, p: nat, end: nat, delims: string, t: Token)
    requires end <= |memory|
  {
    && p <= t.start < t.stop <= end
    && (forall k :: t.start <= k < t.stop ==> memory[k] !in delims)
    && (t.start == p || memory[t.start - 1] in delims)
    && (t.stop == end || memory[t.stop] in delims)
  }

  lemma {:induction false} SkipsDelimiters(memory: string, p: nat, delims: string, end: nat)
    requires p <= end < |memory| && NUL !in delims && memory[end] == NUL
    ensures SkipDelimiters(memory, p, delims) <= end
    ensures memory[SkipDelimiters(memory, p, delims)] !in delims
    ensures forall k :: p <= k < SkipDelimiters(memory, p, delims) ==> memory[k] in delims
    decreases end - p
  {
    if memory[p] in delims {
      SkipsDelimiters(memory, p + 1, delims, end);
    }
  }

  lemma {:induction false} SkipsToken(memory: string, p: nat, delims: string, end: nat)
    requires p <= end < |memory| && memory[end] == NUL
    ensures SkipToken(memory, p, delims) <= end
    ensures memory[SkipToken(memory, p, delims)] == NUL || memory[SkipToken(memory, p, delims)] in delims
    ensures forall k :: p <= k < SkipToken(memory, p, delims) ==> memory[k] != NUL && memory[k] !in delims
    decreases end - p
  {
    if memory[p] != NUL && memory[p] !in delims {
      SkipsToken(memory, p + 1, delims, end);
    }
  }

  // A string with no NUL in it ends where its first one is.
  lemma {:induction false} TerminatorIs(memory: string, p: nat, e: nat)
    requires p <= e < |memory| && memory[e] == NUL && forall k :: p <= k < e ==> memory[k] != NUL
    ensures Terminator(memory, p) == e
    decreases e - p
  {
  }

  /** A call returns the first token there is, or null if there is none; it turns the delimiter behind
      the token, if there is one, into a NUL; and it leaves the cursor behind that, with every later
      token, and the end of the string, where it was. */
  lemma NextToken(memory: string, p: nat, delims: string) returns (j: nat)
    requires IsString(memory, p) && NUL !in delims
    ensures var end := Terminator(memory, p);
            var next := Next(memory, p, delims);
            if next.token == Null then
              && next == Outcome(Null, Null, memory)
              && forall t :: !IsToken(memory, p, end, delims, t)
            else
              && IsToken(memory, p, end, delims, Token(next.token.address, j))
              && (forall t :: IsToken(memory, p, end, delims, t) ==> t == Token(next.token.address, j) || t.start > j)
              && if j == end then next.last == Null && next.memory == memory
                 else next.last == At(j + 1) && next.memory == memory[j := NUL]
  {
    var end := Terminator(memory, p);
    SkipsDelimiters(memory, p, delims, end);
    var i := SkipDelimiters(memory, p, delims);
    SkipsToken(memory, i, delims, end);
    j := SkipToken(memory, i, delims);
    hide SkipDelimiters, SkipToken, Terminator;
    forall t | IsToken(memory, p, end, delims, t)
      ensures i < end && (t == Token(i, j) || t.start > j)
    {
      assert memory[t.start] !in delims;
      assert t.start > p ==> memory[t.start - 1] in delims;
      assert t.stop < end ==> memory[t.stop] in delims;
    }
    if memory[i] != NUL {
      assert IsToken(memory, p, end, delims, Token(i, j));
    }
  }

  // Cutting the string behind a token leaves its rest a string with the same end.
  lemma StillString(memory: string, p: nat, q: nat)
    requires IsString(memory, p) && p < q <= Terminator(memory, p)
    ensures IsString(memory[q - 1 := NUL], q)
    ensures Terminator(memory[q - 1 := NUL], q) == Terminator(memory, p)
  {
    TerminatorIs(memory[q - 1 := NUL], q, Terminator(memory, p));
  }

  // Where the cursor goes is a string again, and nearer the end.
  lemma NextCursor(memory: string, p: nat, delims: string)
    requires IsString(memory, p) && NUL !in delims
    ensures var next := Next(memory, p, delims);
            && |next.memory| == |memory|
            && (next.token == Null ==> next.last == Null)
            && (next.last.At? ==>
                  && p < next.last.address <= Terminator(memory, p)
                  && IsString(next.memory, next.last.address)
                  && Terminator(next.memory, next.last.address) == Terminator(memory, p))
  {
    var j := NextToken(memory, p, delims);
    hide Next, Terminator, IsString;
    if Next(memory, p, delims).last.At? {
      StillString(memory, p, j + 1);
    }
  }

  /* ---- The calls one after the other ---- */

  // Calling until null is returned: the addresses returned, and the memory left behind.
  function Drain(memory: string, p: nat, delims: string): (r: (seq<nat>, string))
    requires IsString(memory, p) && NUL !in delims
    decreases |memory| - p
  {
    NextCursor(memory, p, delims);
    match Next(memory, p, delims)
    case Outcome(Null, _, memory') => ([], memory')
    case Outcome(At(i), Null, memory') => ([i], memory')
    case Outcome(At(i), At(q), memory') =>
      var (later, memory'') := Drain(memory', q, delims);
      ([i] + later, memory'')
  }

  // The tokens of a string, in order, are exactly these.
  ghost predicate AreTokens(memory: string, p: nat, end: nat, delims: string, tokens: seq<Token>)
    requires end <= |memory|
  {
    && (forall n :: 0 <= n < |tokens| ==> IsToken(memory, p, end, delims, tokens[n]))
    && (forall t :: IsToken(memory, p, end, delims, t) ==> t in tokens)
    && (forall m, n :: 0 <= m < n < |tokens| ==> tokens[m].stop < tokens[n].start)
  }

  // The memory with a NUL put behind every token that a delimiter ended.
  ghost predicate AreCut(memory: string, memory': string, end: nat, tokens: seq<Token>) {
    && |memory'| == |memory|
    && forall k :: 0 <= k < |memory| ==>
         memory'[k] == if k < end && exists n :: 0 <= n < |tokens| && tokens[n].stop == k then NUL else memory[k]
  }

  function Starts(tokens: seq<Token>): (starts: seq<nat>)
    ensures |starts| == |tokens|
  {
    seq(|tokens|, n requires 0 <= n < |tokens| => tokens[n].start)
  }

  // The tokens behind a cut are those of the rest of the string.
  lemma LaterTokens(memory: string, p: nat, end: nat, delims: string, first: Token, t: Token)
    requires end < |memory| && NUL !in delims && first.stop < end && IsToken(memory, p, end, delims, first)
    ensures var memory' := memory[first.stop := NUL];
            IsToken(memory', first.stop + 1, end, delims, t)
            <==> IsToken(memory, p, end, delims, t) && t.start > first.stop
  {
    var memory' := memory[first.stop := NUL];
    assert forall k :: first.stop < k < |memory| ==> memory'[k] == memory[k];
    assert memory[first.stop] in delims;
  }

  // A token followed by those of the rest of the string.
  lemma FirstAndLater(memory: string, p: nat, end: nat, delims: string, first: Token, later: seq<Token>)
    requires end < |memory| && NUL !in delims && first.stop < end && IsToken(memory, p, end, delims, first)
    requires forall t :: IsToken(memory, p, end, delims, t) ==> t == first || t.start > first.stop
    requires AreTokens(memory[first.stop := NUL], first.stop + 1, end, delims, later)
    ensures AreTokens(memory, p, end, delims, [first] + later)
  {
    var memory' := memory[first.stop := NUL];
    forall t
      ensures IsToken(memory', first.stop + 1, end, delims, t)
              <==> IsToken(memory, p, end, delims, t) && t.start > first.stop
    {
      LaterTokens(memory, p, end, delims, first, t);
    }
    hide IsToken;
    var tokens := [first] + later;
    forall n | 0 <= n < |tokens|
      ensures IsToken(memory, p, end, delims, tokens[n])
      ensures n > 0 ==> tokens[n].start > first.stop
    {
      if n > 0 {
        assert IsToken(memory', first.stop + 1, end, delims, later[n - 1]);
      }
    }
    forall t | IsToken(memory, p, end, delims, t)
      ensures t in tokens
    {
      if t != first {
        assert t in later;
      }
    }
  }

  // Cutting behind the first token and then behind the later ones.
  lemma CutFirst(memory: string, memory': string, end: nat, first: Token, later: seq<Token>)
    requires first.stop < end <= |memory|
    requires AreCut(memory[first.stop := NUL], memory', end, later)
    ensures AreCut(memory, memory', end, [first] + later)
  {
    var tokens := [first] + later;
    assert tokens[0] == first && forall n :: 0 < n < |tokens| ==> tokens[n] == later[n - 1];
    forall k | 0 <= k < |memory|
      ensures memory'[k] == if k < end && exists n :: 0 <= n < |tokens| && tokens[n].stop == k then NUL else memory[k]
    {
      if m :| 0 <= m < |later| && later[m].stop == k {
        assert tokens[m + 1].stop == k;
      }
    }
  }

  lemma OneOrNone(memory: string, p: nat, end: nat, delims: string, tokens: seq<Token>)
    requires end <= |memory| && |tokens| <= 1
    requires |tokens| == 1 ==> tokens[0].stop == end && IsToken(memory, p, end, delims, tokens[0])
    requires forall t :: IsToken(memory, p, end, delims, t) ==> |tokens| == 1 && (t == tokens[0] || t.start > end)
    ensures AreTokens(memory, p, end, delims, tokens)
    ensures AreCut(memory, memory, end, tokens)
  {
  }

  // What repeated calls on a string do.
  ghost predicate Cuts(memory: string, p: nat, delims: string, tokens: seq<Token>)
    requires IsString(memory, p) && NUL !in delims
  {
    var end := Terminator(memory, p);
    var (addresses, memory') := Drain(memory, p, delims);
    && AreTokens(memory, p, end, delims, tokens)
    && addresses == Starts(tokens)
    && AreCut(memory, memory', end, tokens)
  }

  lemma DrainUnfolds(memory: string, p: nat, delims: string)
    requires IsString(memory, p) && NUL !in delims && Next(memory, p, delims).last.At?
    ensures var next := Next(memory, p, delims);
            && IsString(next.memory, next.last.address)
            && next.token.At?
            && var (later, memory') := Drain(next.memory, next.last.address, delims);
               Drain(memory, p, delims) == ([next.token.address] + later, memory')
  {
    NextCursor(memory, p, delims);
  }

  lemma CutsLast(memory: string, p: nat, delims: string) returns (tokens: seq<Token>)
    requires IsString(memory, p) && NUL !in delims && Next(memory, p, delims).last == Null
    ensures Cuts(memory, p, delims, tokens)
  {
    var end := Terminator(memory, p);
    var j := NextToken(memory, p, delims);
    var next := Next(memory, p, delims);
    hide Next, IsString, IsToken, AreTokens, AreCut;
    if next.token == Null {
      tokens := [];
      assert forall t :: !IsToken(memory, p, Terminator(memory, p), delims, t);
      OneOrNone(memory, p, end, delims, tokens);
    } else {
      tokens := [Token(next.token.address, j)];
      OneOrNone(memory, p, end, delims, tokens);
    }
  }

  lemma StartsFirst(first: Token, later: seq<Token>)
    ensures Starts([first] + later) == [first.start] + Starts(later)
  {
  }

  lemma CutsFirst(memory: string, p: nat, delims: string, later: seq<Token>) returns (tokens: seq<Token>)
    requires IsString(memory, p) && NUL !in delims
    requires var next := Next(memory, p, delims);
             next.last.At? && IsString(next.memory, next.last.address)
             && Cuts(next.memory, next.last.address, delims, later)
    ensures Cuts(memory, p, delims, tokens)
  {
    var end := Terminator(memory, p);
    var j := NextToken(memory, p, delims);
    NextCursor(memory, p, delims);
    var next := Next(memory, p, delims);
    var first := Token(next.token.address, j);
    DrainUnfolds(memory, p, delims);
    assert next.memory == memory[j := NUL] && next.last == At(j + 1);
    StartsFirst(first, later);
    hide Next, IsString, IsToken, AreTokens, AreCut, Drain, Terminator, Starts;
    tokens := [first] + later;
    FirstAndLater(memory, p, end, delims, first, later);
    CutFirst(memory, Drain(next.memory, next.last.address, delims).1, end, first, later);
  }

  /** Repeated calls return exactly the tokens of the string, in order, and then null; the only
      characters they change are the delimiters that end tokens. */
  lemma {:induction false} DrainTokens(memory: string, p: nat, delims: string) returns (tokens: seq<Token>)
    requires IsString(memory, p) && NUL !in delims
    ensures Cuts(memory, p, delims, tokens)
    decreases |memory| - p
  {
    var next := Next(memory, p, delims);
    NextCursor(memory, p, delims);
    hide Next, IsString, Terminator, Cuts;
    if next.last.At? {
      var later := DrainTokens(next.memory, next.last.address, delims);
      tokens := CutsFirst(memory, p, delims, later);
    } else {
      tokens := CutsLast(memory, p, delims);
    }
  }

  /** The addresses returned are those of the tokens, each a string of its own by now. */
  lemma TokensAreStrings(memory: string, p: nat, delims: string, tokens: seq<Token>, n: nat)
    requires IsString(memory, p) && NUL !in delims && Cuts(memory, p, delims, tokens) && n < |tokens|
    ensures var (addresses, memory') := Drain(memory, p, delims);
            && |addresses| == |tokens| && addresses[n] == tokens[n].start
            && IsString(memory', addresses[n])
            && memory'[addresses[n]..Terminator(memory', addresses[n])] == memory[tokens[n].start..tokens[n].stop]
  {
    var end := Terminator(memory, p);
    var memory' := Drain(memory, p, delims).1;
    var t := tokens[n];
    assert IsToken(memory, p, end, delims, t);
    forall m | 0 <= m < |tokens|
      ensures !(t.start <= tokens[m].stop < t.stop)
    {
      assert m < n ==> tokens[m].stop < t.start;
      assert n < m ==> t.stop < tokens[m].start;
    }
    hide Drain;
    TerminatorIs(memory', t.start, t.stop);
  }

  /* ---- The routine ---- */

  class Tokenizer {
    const memory: array<char>
    var last: Pointer

    // What the cursor points to is a string.
    ghost predicate Valid()
      reads this, memory
    {
      last.At? ==> IsString(memory[..], last.address)
    }

    constructor (memory: array<char>)
      ensures Valid() && this.memory == memory && last == Null
    {
      this.memory := memory;
      last := Null;
    }

    // The scan over leading delimiters.
    method Span(from: nat, delims: string, ghost end: nat) returns (p: nat)
      requires from <= end < memory.Length && memory[end] == NUL && NUL !in delims
      ensures from <= p <= end && p == SkipDelimiters(memory[..], from, delims)
    {
      p := from;
      var spanned := Spans(memory[p], delims);
      while spanned
        invariant from <= p <= end && spanned == (memory[p] in delims)
        invariant SkipDelimiters(memory[..], p, delims) == SkipDelimiters(memory[..], from, delims)
        decreases end - p, spanned
      {
        p := p + 1;
        spanned := Spans(memory[p], delims);
      }
    }

    // The scan over the token.
    method Scan(from: nat, delims: string, ghost end: nat) returns (p: nat)
      requires from <= end < memory.Length && memory[end] == NUL
      ensures from <= p <= end && p == SkipToken(memory[..], from, delims)
    {
      p := from;
      var ends := Ends(memory[p], delims);
      while !ends
        invariant from <= p <= end && ends == (memory[p] == NUL || memory[p] in delims)
        invariant SkipToken(memory[..], p, delims) == SkipToken(memory[..], from, delims)
        decreases end - p, !ends
      {
        p := p + 1;
        ends := Ends(memory[p], delims);
      }
    }

    /** One call. A null argument goes on from the cursor; with none, or when the cursor has come to the
        end of its string, the result is null. */
    method StrTok(s: Pointer, delims: string) returns (token: Pointer)
      requires Valid() && NUL !in delims
      requires s.At? ==> IsString(memory[..], s.address)
      modifies this`last, memory
      ensures Valid()
      ensures var from := if s == Null then old(last) else s;
              if from == Null then token == last == Null && memory[..] == old(memory[..])
              else Outcome(token, last, memory[..]) == Next(old(memory[..]), from.address, delims)
    {
      var from := if s == Null then last else s;
      if from == Null {
        return Null;
      }
      ghost var before := memory[..];
      ghost var end := Terminator(before, from.address);
      NextCursor(before, from.address, delims);
      hide IsString, Terminator, SkipDelimiters, SkipToken;
      var p := Span(from.address, delims, end);
      if memory[p] == NUL {
        last := Null;
        return Null;
      }
      token := At(p);
      p := Scan(p, delims, end);
      if memory[p] == NUL {
        last := Null;
      } else {
        memory[p] := NUL;
        last := At(p + 1);
        assert memory[..] == before[p := NUL];
      }
    }
  }

  // The scan over the delimiters when leading ones are skipped: it stops short of their NUL.
  method Spans(c: char, delims: string) returns (found: bool)
    ensures found == (c in delims)
  {
    for k := 0 to |delims|
      invariant c !in delims[..k]
    {
      if c == delims[k] {
        return true;
      }
    }
    return false;
  }

  // The scan over the delimiters within a token: it takes in their NUL.
  method Ends(c: char, delims: string) returns (found: bool)
    ensures found == (c == NUL || c in delims)
  {
    var withNul := delims + [NUL];
    assert c in withNul <==> c == NUL || c in delims;
    for k := 0 to |withNul|
      invariant c !in withNul[..k]
    {
      if withNul[k] == c {
        return true;
      }
    }
    return false;
  }
}
