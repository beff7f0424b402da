/** The glob matcher behind KEYS: a loop that remembers only the last star,
    proved against a token-level definition of matching that tries them all. */
module Glob {
  import opened ByteStrings

  const STAR: byte := 42
  const QUESTION: byte := 63
  const OPEN: byte := 91
  const CLOSE: byte := 93
  const CARET: byte := 94
  const DASH: byte := 45
  const BACKSLASH: byte := 92

  // ------------------------------------------------------------------
  // Patterns as tokens
  // ------------------------------------------------------------------

  datatype Item = One(c: byte) | Span(lo: byte, hi: byte)

  datatype Token =
    | Star
    | Any
    | Literal(c: byte)
    | Class(negated: bool, items: seq<Item>)

  /** The items of a character class from index `q` on, and the index of the
      closing bracket, or of the end of the pattern when there is none. */
  function ClassItems(pattern: Bytes, q: nat): (r: (seq<Item>, nat))
    requires q <= |pattern|
    ensures q <= r.1 <= |pattern|
    decreases |pattern| - q
  {
    if q == |pattern| || pattern[q] == CLOSE then ([], q)
    else
      var (item, next) := ClassItem(pattern, q);
      var (items, end) := ClassItems(pattern, next);
      ([item] + items, end)
  }

  function ClassItem(pattern: Bytes, q: nat): (r: (Item, nat))
    requires q < |pattern| && pattern[q] != CLOSE
    ensures q < r.1 <= |pattern|
  {
    if pattern[q] == BACKSLASH && q + 1 < |pattern| then (One(pattern[q + 1]), q + 2)
    else if q + 2 < |pattern| && pattern[q + 1] == DASH && pattern[q + 2] != CLOSE then
      (Span(pattern[q], pattern[q + 2]), q + 3)
    else (One(pattern[q]), q + 1)
  }

  function ClassStart(pattern: Bytes, p: nat): (q: nat)
    requires p < |pattern|
    ensures p < q <= |pattern|
  {
    if p + 1 < |pattern| && pattern[p + 1] == CARET then p + 2 else p + 1
  }

  /** The token at `p` and the index after it. */
  function TokenAt(pattern: Bytes, p: nat): (r: (Token, nat))
    requires p < |pattern|
    ensures p < r.1 <= |pattern|
  {
    var c := pattern[p];
    if c == STAR then (Star, p + 1)
    else if c == QUESTION then (Any, p + 1)
    else if c == OPEN then
      var start := ClassStart(pattern, p);
      var (items, end) := ClassItems(pattern, start);
      (Class(start == p + 2, items), if end < |pattern| then end + 1 else end)
    else if c == BACKSLASH && p + 1 < |pattern| then (Literal(pattern[p + 1]), p + 2)
    else (Literal(c), p + 1)
  }

  function Tokens(pattern: Bytes, p: nat): seq<Token>
    requires p <= |pattern|
    decreases |pattern| - p
  {
    if p == |pattern| then []
    else
      var (token, next) := TokenAt(pattern, p);
      [token] + Tokens(pattern, next)
  }

  // ------------------------------------------------------------------
  // What matching means
  // ------------------------------------------------------------------

  /** Ranges compare `char` values, which are signed on the platforms served. */
  function Rank(c: byte): int { if c < 128 then c as int else c as int - 256 }

  predicate InItem(item: Item, c: byte)
  {
    match item
    case One(x) => c == x
    case Span(a, b) =>
      var lo := if Rank(a) <= Rank(b) then a else b;
      var hi := if Rank(a) <= Rank(b) then b else a;
      Rank(lo) <= Rank(c) <= Rank(hi)
  }

  predicate AnyItem(items: seq<Item>, c: byte) { exists i :: 0 <= i < |items| && InItem(items[i], c) }

  predicate Accepts(token: Token, c: byte)
  {
    match token
    case Star => false
    case Any => true
    case Literal(x) => c == x
    case Class(negated, items) => negated != AnyItem(items, c)
  }

  /** Tokens from index `j` match the string from index `i` to its end, where a
      star may stand for any stretch at all. */
  ghost predicate Matches(tokens: seq<Token>, j: nat, str: Bytes, i: nat)
    decreases |tokens| - j
  {
    if j >= |tokens| then i == |str|
    else if tokens[j].Star? then
      var next := j + 1;
      exists k: nat :: i <= k <= |str| && Matches(tokens, next, str, k)
    else i < |str| && Accepts(tokens[j], str[i]) && Matches(tokens, j + 1, str, i + 1)
  }

  // ------------------------------------------------------------------
  // Why the last star is enough
  // ------------------------------------------------------------------

  ghost predicate NoStars(tokens: seq<Token>, lo: nat, hi: nat)
  {
    lo <= hi <= |tokens| && forall m :: lo <= m < hi ==> !tokens[m].Star?
  }

  /** Star-free tokens consume one character each. */
  lemma {:induction false} Advance(tokens: seq<Token>, lo: nat, hi: nat, str: Bytes, i: nat)
    requires NoStars(tokens, lo, hi) && Matches(tokens, lo, str, i)
    ensures Matches(tokens, hi, str, i + (hi - lo))
    decreases hi - lo
  {
    if lo < hi {
      Advance(tokens, lo + 1, hi, str, i + 1);
    }
  }

  ghost predicate MatchesLater(tokens: seq<Token>, j: nat, str: Bytes, after: nat)
  {
    exists k: nat :: after < k <= |str| && Matches(tokens, j, str, k)
  }

  /** When a second star is reached, letting the first one swallow more gains
      nothing: whatever matched then is matched from the second star here. */
  lemma {:induction false} FirstStarSpent(tokens: seq<Token>, js: nat, j: nat, str: Bytes, starS: nat, s: nat)
    requires NoStars(tokens, js, j) && j < |tokens| && tokens[j].Star?
    requires s == starS + (j - js) && MatchesLater(tokens, js, str, starS)
    ensures Matches(tokens, j, str, s)
  {
    var k: nat :| starS < k <= |str| && Matches(tokens, js, str, k);
    Advance(tokens, js, j, str, k);
    var m: nat :| k + (j - js) <= m <= |str| && Matches(tokens, j + 1, str, m);
  }

  /** At the end of the string the star cannot swallow more either. */
  lemma {:induction false} NothingLeft(tokens: seq<Token>, js: nat, j: nat, str: Bytes, starS: nat)
    requires NoStars(tokens, js, j) && |str| == starS + (j - js)
    ensures !MatchesLater(tokens, js, str, starS)
  {
    if MatchesLater(tokens, js, str, starS) {
      var k: nat :| starS < k <= |str| && Matches(tokens, js, str, k);
      Advance(tokens, js, j, str, k);
    }
  }

  lemma {:induction false} LaterStep(tokens: seq<Token>, j: nat, str: Bytes, after: nat)
    requires after < |str|
    ensures MatchesLater(tokens, j, str, after) <==>
            Matches(tokens, j, str, after + 1) || MatchesLater(tokens, j, str, after + 1)
  {}

  lemma {:induction false} StarStep(tokens: seq<Token>, j: nat, str: Bytes, i: nat)
    requires j < |tokens| && tokens[j].Star? && i <= |str|
    ensures Matches(tokens, j, str, i) <==>
            Matches(tokens, j + 1, str, i) || MatchesLater(tokens, j + 1, str, i)
  {}

  // ------------------------------------------------------------------
  // The matcher
  // ------------------------------------------------------------------

  lemma {:induction false} AnyItemCons(item: Item, items: seq<Item>, c: byte)
    ensures AnyItem([item] + items, c) <==> InItem(item, c) || AnyItem(items, c)
  {
    var all := [item] + items;
    assert all[0] == item;
    assert forall i :: 0 <= i < |items| ==> all[i + 1] == items[i];
  }

  /** The inner loop over a character class opened at `p`. */
  method ScanClass(pattern: Bytes, p: nat, c: byte) returns (matched: bool, next: nat)
    requires p < |pattern| && pattern[p] == OPEN
    ensures matched == Accepts(TokenAt(pattern, p).0, c)
    ensures next == TokenAt(pattern, p).1
  {
    var q := p + 1;
    var negate := false;
    if q < |pattern| && pattern[q] == CARET {
      negate := true;
      q := q + 1;
    }
    ghost var start := q;
    matched := false;
    while q < |pattern| && pattern[q] != CLOSE
      invariant start <= q <= |pattern|
      invariant ClassItems(pattern, q).1 == ClassItems(pattern, start).1
      invariant AnyItem(ClassItems(pattern, start).0, c) <==>
                matched || AnyItem(ClassItems(pattern, q).0, c)
    {
      ghost var (item, after) := ClassItem(pattern, q);
      AnyItemCons(item, ClassItems(pattern, after).0, c);
      if pattern[q] == BACKSLASH && q + 1 < |pattern| {
        q := q + 1;
        if pattern[q] == c {
          matched := true;
        }
      } else if q + 2 < |pattern| && pattern[q + 1] == DASH && pattern[q + 2] != CLOSE {
        var lo, hi := pattern[q], pattern[q + 2];
        if Rank(lo) > Rank(hi) {
          lo, hi := hi, lo;
        }
        if Rank(c) >= Rank(lo) && Rank(c) <= Rank(hi) {
          matched := true;
        }
        q := q + 2;
      } else if pattern[q] == c {
        matched := true;
      }
      q := q + 1;
    }
    if negate {
      matched := !matched;
    }
    next := if q < |pattern| then q + 1 else q;
  }

  /** The single-character tests of one turn of the matcher. */
  method TryOne(pattern: Bytes, p: nat, c: byte) returns (matched: bool, next: nat)
    requires p < |pattern| && pattern[p] != STAR
    ensures matched == Accepts(TokenAt(pattern, p).0, c)
    ensures next == TokenAt(pattern, p).1
  {
    if pattern[p] == QUESTION {
      return true, p + 1;
    }
    if pattern[p] == OPEN {
      matched, next := ScanClass(pattern, p, c);
      return;
    }
    var literal := pattern[p];
    next := p + 1;
    if pattern[p] == BACKSLASH && p + 1 < |pattern| {
      literal := pattern[p + 1];
      next := p + 2;
    }
    matched := literal == c;
  }

  /** The matcher's position: where it stands in the pattern and the string,
      and where the last star left off. */
  datatype Cursor = Cursor(p: nat, s: nat, star: Option<nat>, starS: nat)

  /** Token `j` is the one at byte `p` of the pattern. */
  ghost predicate Aligned(pattern: Bytes, tokens: seq<Token>, p: nat, j: nat)
  {
    p <= |pattern| && j <= |tokens| && tokens[j..] == Tokens(pattern, p)
  }

  lemma {:induction false} NextAligned(pattern: Bytes, tokens: seq<Token>, p: nat, j: nat)
    requires Aligned(pattern, tokens, p, j)
    ensures p < |pattern| <==> j < |tokens|
    ensures p < |pattern| ==>
              && tokens[j] == TokenAt(pattern, p).0
              && Aligned(pattern, tokens, TokenAt(pattern, p).1, j + 1)
  {
    if p < |pattern| {
      assert tokens[j] == tokens[j..][0];
      assert tokens[j + 1..] == tokens[j..][1..];
    }
  }

  /** The loop invariant: the pattern matches exactly when it matches from here,
      or from after the last star with the star swallowing more. */
  ghost predicate Exploring(pattern: Bytes, str: Bytes, c: Cursor, j: nat, js: nat)
  {
    var tokens := Tokens(pattern, 0);
    && Aligned(pattern, tokens, c.p, j)
    && c.starS <= c.s <= |str|
    && (c.star.Some? ==>
          && c.star.value < |pattern|
          && Aligned(pattern, tokens, c.star.value + 1, js)
          && NoStars(tokens, js, j) && c.s == c.starS + (j - js))
    && (Matches(tokens, 0, str, 0) <==>
          Matches(tokens, j, str, c.s) || (c.star.Some? && MatchesLater(tokens, js, str, c.starS)))
  }

  lemma {:induction false} OnStar(pattern: Bytes, str: Bytes, c: Cursor, j: nat, js: nat)
    requires Exploring(pattern, str, c, j, js)
    requires c.p < |pattern| && pattern[c.p] == STAR
    ensures Exploring(pattern, str, Cursor(c.p + 1, c.s, Some(c.p), c.s), j + 1, j + 1)
  {
    hide Matches;
    hide Tokens;
    var tokens := Tokens(pattern, 0);
    NextAligned(pattern, tokens, c.p, j);
    if c.star.Some? && MatchesLater(tokens, js, str, c.starS) {
      FirstStarSpent(tokens, js, j, str, c.starS, c.s);
    }
    StarStep(tokens, j, str, c.s);
  }

  lemma {:induction false} OnAccept(pattern: Bytes, str: Bytes, c: Cursor, j: nat, js: nat)
    requires Exploring(pattern, str, c, j, js)
    requires c.s < |str| && c.p < |pattern| && pattern[c.p] != STAR
    requires Accepts(TokenAt(pattern, c.p).0, str[c.s])
    ensures Exploring(pattern, str, c.(p := TokenAt(pattern, c.p).1, s := c.s + 1), j + 1, js)
  {
    hide Tokens;
    hide MatchesLater;
    NextAligned(pattern, Tokens(pattern, 0), c.p, j);
  }

  /** Nothing matches from here: only the last star can still help. */
  lemma {:induction false} OnMismatch(pattern: Bytes, str: Bytes, c: Cursor, j: nat, js: nat)
    requires Exploring(pattern, str, c, j, js)
    requires c.s < |str|
    requires c.p < |pattern| ==>
               pattern[c.p] != STAR && !Accepts(TokenAt(pattern, c.p).0, str[c.s])
    ensures c.star.None? ==> !Matches(Tokens(pattern, 0), 0, str, 0)
    ensures c.star.Some? ==>
              Exploring(pattern, str, Cursor(c.star.value + 1, c.starS + 1, c.star, c.starS + 1), js, js)
  {
    hide Tokens;
    hide Accepts;
    hide MatchesLater;
    var tokens := Tokens(pattern, 0);
    NextAligned(pattern, tokens, c.p, j);
    NotStarToken(pattern, c.p);
    assert !Matches(tokens, j, str, c.s);
    if c.star.Some? {
      hide Matches;
      LaterStep(tokens, js, str, c.starS);
    }
  }

  /** The string is used up: the pattern matches if only stars are left of it. */
  lemma {:induction false} OnEnd(pattern: Bytes, str: Bytes, c: Cursor, j: nat, js: nat)
    requires Exploring(pattern, str, c, j, js) && c.s == |str|
    ensures Matches(Tokens(pattern, 0), 0, str, 0) <==> Matches(Tokens(pattern, 0), j, str, |str|)
  {
    if c.star.Some? {
      NothingLeft(Tokens(pattern, 0), js, j, str, c.starS);
    }
  }

  /** glob_match, with the number of turns its main loop takes. */
  method GlobMatch(pattern: Bytes, str: Bytes) returns (matched: bool, ghost turns: nat)
    ensures matched <==> Matches(Tokens(pattern, 0), 0, str, 0)
    ensures turns <= Times(|str| + 1, |pattern| + 1)
  {
    hide Matches;
    hide Tokens;
    hide TokenAt;
    hide Accepts;
    hide Times;
    var c := Cursor(0, 0, None, 0);
    ghost var tokens := Tokens(pattern, 0);
    ghost var j, js := 0, 0;
    ghost var width := |pattern| + 1;
    turns := 0;

    while c.s < |str|
      invariant Exploring(pattern, str, c, j, js)
      invariant turns <= Times(c.starS, width) + c.p
      decreases |str| - c.starS, |pattern| - c.p
    {
      turns := turns + 1;
      if c.p < |pattern| {
        if pattern[c.p] == STAR {
          OnStar(pattern, str, c, j, js);
          Scaled(c.starS, c.s, width);
          c := Cursor(c.p + 1, c.s, Some(c.p), c.s);
          j, js := j + 1, j + 1;
          continue;
        }
        var ok, next := TryOne(pattern, c.p, str[c.s]);
        if ok {
          OnAccept(pattern, str, c, j, js);
          c := c.(p := next, s := c.s + 1);
          j := j + 1;
          continue;
        }
      }
      // This pairing leads nowhere; the star remembered has to stand for more.
      OnMismatch(pattern, str, c, j, js);
      Scaled(c.starS, |str|, width);
      Scaled(|str|, |str|, width);
      if c.star.None? {
        return false, turns;
      }
      c := Cursor(c.star.value + 1, c.starS + 1, c.star, c.starS + 1);
      j := js;
    }

    OnEnd(pattern, str, c, j, js);
    Scaled(c.starS, |str|, width);
    Scaled(|str|, |str|, width);
    var p := c.p;
    while p < |pattern| && pattern[p] == STAR
      invariant Aligned(pattern, tokens, p, j)
      invariant Matches(tokens, 0, str, 0) <==> Matches(tokens, j, str, |str|)
    {
      NextAligned(pattern, tokens, p, j);
      StarToken(pattern, p);
      StarStep(tokens, j, str, |str|);
      p := p + 1;
      j := j + 1;
    }
    matched := p == |pattern|;
    NextAligned(pattern, tokens, p, j);
    LastToken(pattern, tokens, p, j, str);
  }

  lemma {:induction false} LastToken(pattern: Bytes, tokens: seq<Token>, p: nat, j: nat, str: Bytes)
    requires p < |pattern| <==> j < |tokens|
    requires p < |pattern| ==> pattern[p] != STAR && tokens[j] == TokenAt(pattern, p).0
    requires p <= |pattern| && j <= |tokens|
    ensures Matches(tokens, j, str, |str|) <==> p == |pattern|
  {}

  lemma {:induction false} StarToken(pattern: Bytes, p: nat)
    requires p < |pattern| && pattern[p] == STAR
    ensures TokenAt(pattern, p) == (Star, p + 1)
  {}

  lemma {:induction false} NotStarToken(pattern: Bytes, p: nat)
    requires p < |pattern| ==> pattern[p] != STAR
    ensures p < |pattern| ==> !TokenAt(pattern, p).0.Star?
  {}

  // ------------------------------------------------------------------
  // Spelling tokens
  // ------------------------------------------------------------------

  /** A span cannot begin with a bracket or a backslash, nor end with a bracket. */
  predicate PlainItem(item: Item)
  {
    item.Span? ==> item.lo != CLOSE && item.lo != BACKSLASH && item.hi != CLOSE
  }

  /** A class that is not negated cannot open with a span from the caret. */
  predicate Spellable(token: Token)
  {
    token.Class? ==>
      && (forall i :: 0 <= i < |token.items| ==> PlainItem(token.items[i]))
      && (!token.negated && token.items != [] && token.items[0].Span? ==> token.items[0].lo != CARET)
  }

  function SpellItem(item: Item): (r: Bytes)
    ensures |r| >= 2
  {
    match item
    case One(c) => [BACKSLASH, c]
    case Span(lo, hi) => [lo, DASH, hi]
  }

  function SpellItems(items: seq<Item>): Bytes
  {
    if items == [] then [] else SpellItem(items[0]) + SpellItems(items[1..])
  }

  function SpellToken(token: Token): Bytes
  {
    match token
    case Star => [STAR]
    case Any => [QUESTION]
    case Literal(c) => [BACKSLASH, c]
    case Class(negated, items) =>
      (if negated then [OPEN, CARET] else [OPEN]) + (SpellItems(items) + [CLOSE])
  }

  function Spell(tokens: seq<Token>): Bytes
  {
    if tokens == [] then [] else SpellToken(tokens[0]) + Spell(tokens[1..])
  }

  lemma {:induction false} ItemReads(pattern: Bytes, q: nat, item: Item)
    requires PlainItem(item) && At(pattern, q, SpellItem(item))
    ensures q < |pattern| && pattern[q] != CLOSE && ClassItem(pattern, q) == (item, q + |SpellItem(item)|)
  {
    hide At;
    var spelled := SpellItem(item);
    AtIndex(pattern, q, spelled, 0);
    AtIndex(pattern, q, spelled, 1);
    if item.Span? {
      AtIndex(pattern, q, spelled, 2);
    }
  }

  lemma {:induction false} ItemsRead(pattern: Bytes, q: nat, items: seq<Item>)
    requires forall i :: 0 <= i < |items| ==> PlainItem(items[i])
    requires At(pattern, q, SpellItems(items) + [CLOSE])
    ensures q <= |pattern| && ClassItems(pattern, q) == (items, q + |SpellItems(items)|)
    ensures q + |SpellItems(items)| < |pattern|
    decreases |items|
  {
    hide At;
    hide ClassItem;
    hide SpellItem;
    hide PlainItem;
    if items == [] {
      AtIndex(pattern, q, SpellItems(items) + [CLOSE], 0);
    } else {
      var first := SpellItem(items[0]);
      var rest := SpellItems(items[1..]) + [CLOSE];
      assert SpellItems(items) + [CLOSE] == first + rest;
      AtParts(pattern, q, first, rest);
      ItemReads(pattern, q, items[0]);
      ItemsRead(pattern, q + |first|, items[1..]);
      assert [items[0]] + items[1..] == items;
    }
  }

  /** A class token, once its parts are known. */
  lemma {:induction false} ClassTokenAt(pattern: Bytes, p: nat, start: nat, items: seq<Item>, end: nat)
    requires p < |pattern| && pattern[p] == OPEN && start == ClassStart(pattern, p)
    requires end < |pattern| && ClassItems(pattern, start) == (items, end)
    ensures TokenAt(pattern, p) == (Class(start == p + 2, items), end + 1)
  {
    hide ClassItems;
    hide ClassStart;
  }

  lemma {:induction false} FirstOfItems(items: seq<Item>)
    requires Spellable(Class(false, items))
    ensures var body := SpellItems(items) + [CLOSE];
            body != [] && body[0] != CARET
  {}

  lemma {:induction false} ClassReads(pattern: Bytes, p: nat, negated: bool, items: seq<Item>)
    requires Spellable(Class(negated, items)) && At(pattern, p, SpellToken(Class(negated, items)))
    ensures p < |pattern|
    ensures TokenAt(pattern, p) == (Class(negated, items), p + |SpellToken(Class(negated, items))|)
  {
    hide At;
    hide ClassItems;
    hide SpellItems;
    hide PlainItem;
    hide TokenAt;
    var opening := if negated then [OPEN, CARET] else [OPEN];
    var body := SpellItems(items) + [CLOSE];
    AtParts(pattern, p, opening, body);
    AtIndex(pattern, p, opening, 0);
    if negated {
      AtIndex(pattern, p, opening, 1);
    } else {
      FirstOfItems(items);
      AtIndex(pattern, p + 1, body, 0);
    }
    var start := p + |opening|;
    ItemsRead(pattern, start, items);
    ClassTokenAt(pattern, p, start, items, start + |SpellItems(items)|);
  }

  lemma {:induction false} TokenReads(pattern: Bytes, p: nat, token: Token)
    requires Spellable(token) && At(pattern, p, SpellToken(token))
    ensures p < |pattern| && TokenAt(pattern, p) == (token, p + |SpellToken(token)|)
  {
    hide At;
    hide ClassItems;
    hide SpellItems;
    hide Spellable;
    if token.Class? {
      ClassReads(pattern, p, token.negated, token.items);
    } else {
      AtIndex(pattern, p, SpellToken(token), 0);
      if token.Literal? {
        AtIndex(pattern, p, SpellToken(token), 1);
      }
    }
  }

  lemma {:induction false} TokensRead(pattern: Bytes, p: nat, tokens: seq<Token>)
    requires forall i :: 0 <= i < |tokens| ==> Spellable(tokens[i])
    requires At(pattern, p, Spell(tokens)) && p + |Spell(tokens)| == |pattern|
    ensures Tokens(pattern, p) == tokens
    decreases |tokens|
  {
    hide TokenAt;
    hide SpellToken;
    hide Spellable;
    if tokens != [] {
      AtParts(pattern, p, SpellToken(tokens[0]), Spell(tokens[1..]));
      TokenReads(pattern, p, tokens[0]);
      TokensRead(pattern, p + |SpellToken(tokens[0])|, tokens[1..]);
      assert [tokens[0]] + tokens[1..] == tokens;
    }
  }

  lemma {:induction false} ItemsArePlain(pattern: Bytes, q: nat)
    requires q <= |pattern|
    ensures forall i :: 0 <= i < |ClassItems(pattern, q).0| ==> PlainItem(ClassItems(pattern, q).0[i])
    decreases |pattern| - q
  {
    if q < |pattern| && pattern[q] != CLOSE {
      ItemsArePlain(pattern, ClassItem(pattern, q).1);
    }
  }

  lemma {:induction false} TokenIsSpellable(pattern: Bytes, p: nat)
    requires p < |pattern|
    ensures Spellable(TokenAt(pattern, p).0)
  {
    hide PlainItem;
    if pattern[p] == OPEN {
      ItemsArePlain(pattern, ClassStart(pattern, p));
    }
  }

  lemma {:induction false} TokensAreSpellable(pattern: Bytes, p: nat)
    requires p <= |pattern|
    ensures forall i :: 0 <= i < |Tokens(pattern, p)| ==> Spellable(Tokens(pattern, p)[i])
    decreases |pattern| - p
  {
    hide TokenAt;
    hide Spellable;
    if p < |pattern| {
      TokenIsSpellable(pattern, p);
      TokensAreSpellable(pattern, TokenAt(pattern, p).1);
    }
  }

  /** The lists of tokens that some pattern is read as are exactly those of spellable
      tokens. */
  lemma {:induction false} ReadableExactly(tokens: seq<Token>)
    ensures (exists pattern :: Tokens(pattern, 0) == tokens) <==>
            forall i :: 0 <= i < |tokens| ==> Spellable(tokens[i])
  {
    hide Spellable;
    hide Tokens;
    if forall i :: 0 <= i < |tokens| ==> Spellable(tokens[i]) {
      SpellingReadsBack(tokens);
    }
    forall pattern | Tokens(pattern, 0) == tokens ensures forall i :: 0 <= i < |tokens| ==> Spellable(tokens[i]) {
      TokensAreSpellable(pattern, 0);
    }
  }

  /** A list of spellable tokens is what its own spelling is read as. */
  lemma {:induction false} SpellingReadsBack(tokens: seq<Token>)
    requires forall i :: 0 <= i < |tokens| ==> Spellable(tokens[i])
    ensures Tokens(Spell(tokens), 0) == tokens
  {
    TokensRead(Spell(tokens), 0, tokens);
  }

  /** A string with every byte escaped is the pattern of that string alone. */
  lemma {:induction false} EscapedMatchesItself(text: Bytes, str: Bytes)
    ensures Matches(Tokens(Spell(Literals(text)), 0), 0, str, 0) <==> str == text
  {
    SpellingReadsBack(Literals(text));
    LiteralsMatch(text, 0, str);
    assert text[0..] == text && str[0..] == str;
  }

  function Literals(text: Bytes): (tokens: seq<Token>)
    ensures |tokens| == |text| && forall i :: 0 <= i < |text| ==> tokens[i] == Literal(text[i])
  {
    seq(|text|, i requires 0 <= i < |text| => Literal(text[i]))
  }

  lemma {:induction false} LiteralsMatch(text: Bytes, i: nat, str: Bytes)
    requires i <= |text| && i <= |str|
    ensures Matches(Literals(text), i, str, i) <==> str[i..] == text[i..]
    decreases |text| - i
  {
    if i < |text| && i < |str| {
      LiteralsMatch(text, i + 1, str);
      assert str[i..] == [str[i]] + str[i + 1..];
      assert text[i..] == [text[i]] + text[i + 1..];
      if str[i..] == text[i..] {
        assert str[i] == str[i..][0] && text[i] == text[i..][0];
        assert str[i + 1..] == str[i..][1..] && text[i + 1..] == text[i..][1..];
      }
    } else {
      assert |str[i..]| == |str| - i && |text[i..]| == |text| - i;
    }
  }

  // ------------------------------------------------------------------
  // What patterns mean, in bytes
  // ------------------------------------------------------------------

  /** Bytes that stand for themselves outside a class. */
  predicate Ordinary(c: byte) { c != STAR && c != QUESTION && c != OPEN && c != BACKSLASH }

  predicate AllOrdinary(text: Bytes) { forall i :: 0 <= i < |text| ==> Ordinary(text[i]) }

  lemma {:induction false} OrdinaryToken(pattern: Bytes, p: nat)
    requires p < |pattern| && Ordinary(pattern[p])
    ensures TokenAt(pattern, p) == (Literal(pattern[p]), p + 1)
  {}

  /** Ordinary text is read as literals, whatever follows it. */
  lemma {:induction false} OrdinaryTokens(pattern: Bytes, p: nat, text: Bytes)
    requires AllOrdinary(text) && At(pattern, p, text)
    ensures p + |text| <= |pattern|
    ensures Tokens(pattern, p) == Literals(text) + Tokens(pattern, p + |text|)
    decreases |text|
  {
    hide At;
    hide TokenAt;
    AtFits(pattern, p, text);
    if text == [] {
      NoLiterals(Tokens(pattern, p));
    } else {
      AtIndex(pattern, p, text, 0);
      AtParts(pattern, p, text[..1], text[1..]) by { assert text == text[..1] + text[1..]; }
      OrdinaryTokens(pattern, p + 1, text[1..]);
      OrdinaryToken(pattern, p);
      FirstLiteral(text, Tokens(pattern, p + |text|));
    }
  }

  lemma {:induction false} NoLiterals(rest: seq<Token>)
    ensures Literals([]) + rest == rest
  {
    assert Literals([]) == [];
  }

  lemma {:induction false} FirstLiteral(text: Bytes, rest: seq<Token>)
    requires text != []
    ensures [Literal(text[0])] + (Literals(text[1..]) + rest) == Literals(text) + rest
  {
    assert Literals(text) == [Literal(text[0])] + Literals(text[1..]);
  }

  lemma {:induction false} AtFits(input: Bytes, pos: nat, x: Bytes)
    requires At(input, pos, x)
    ensures pos + |x| <= |input|
  {}

  /** A pattern of ordinary bytes matches the string it is, and no other. */
  lemma {:induction false} OrdinaryMatchesItself(text: Bytes, str: Bytes)
    requires AllOrdinary(text)
    ensures Matches(Tokens(text, 0), 0, str, 0) <==> str == text
  {
    hide Matches;
    assert At(text, 0, text) by { assert text[0..|text|] == text; }
    OrdinaryTokens(text, 0, text);
    assert Literals(text) + [] == Literals(text);
    LiteralsMatch(text, 0, str);
    assert text[0..] == text && str[0..] == str;
  }

  /** Literals in front of anything: the string starts with them, and the rest matches. */
  lemma {:induction false} LiteralsThen(text: Bytes, rest: seq<Token>, i: nat, str: Bytes)
    requires i <= |text| && i <= |str|
    ensures Matches(Literals(text) + rest, i, str, i) <==>
            |text| <= |str| && str[i..|text|] == text[i..] && Matches(Literals(text) + rest, |text|, str, |text|)
    decreases |text| - i
  {
    hide Accepts;
    var tokens := Literals(text) + rest;
    if i < |text| {
      LiteralStep(tokens, i, str, text[i]);
      if i < |str| {
        LiteralsThen(text, rest, i + 1, str);
        if |text| <= |str| {
          SameHead(str[i..|text|], text[i..]);
          assert str[i..|text|][1..] == str[i + 1..|text|] && text[i..][1..] == text[i + 1..];
        }
      }
    }
  }

  lemma {:induction false} LiteralStep(tokens: seq<Token>, j: nat, str: Bytes, c: byte)
    requires j < |tokens| && tokens[j] == Literal(c) && j <= |str|
    ensures Matches(tokens, j, str, j) <==> j < |str| && str[j] == c && Matches(tokens, j + 1, str, j + 1)
  {}

  lemma {:induction false} SameHead(a: Bytes, b: Bytes)
    requires a != [] && b != []
    ensures a == b <==> a[0] == b[0] && a[1..] == b[1..]
  {
    assert a == [a[0]] + a[1..] && b == [b[0]] + b[1..];
  }

  /** Ordinary text with a star behind it matches exactly what starts with the text. */
  lemma {:induction false} PrefixPattern(text: Bytes, str: Bytes)
    requires AllOrdinary(text)
    ensures Matches(Tokens(text + [STAR], 0), 0, str, 0) <==> |text| <= |str| && str[..|text|] == text
  {
    hide TokenAt;
    hide Matches;
    var pattern := text + [STAR];
    JoinedAt(text, [STAR]);
    OrdinaryTokens(pattern, 0, text);
    StarToken(pattern, |text|);
    assert Tokens(pattern, |text| + 1) == [];
    assert Tokens(pattern, |text|) == [Star];
    var tokens := Literals(text) + [Star];
    LiteralsThen(text, [Star], 0, str);
    assert text[0..] == text;
    if |text| <= |str| {
      LastStar(tokens, |text|, str, |text|);
      assert str[0..|text|] == str[..|text|];
    }
  }

  lemma {:induction false} LastStar(tokens: seq<Token>, j: nat, str: Bytes, s: nat)
    requires j + 1 == |tokens| && tokens[j] == Star && s <= |str|
    ensures Matches(tokens, j, str, s)
  {
    assert Matches(tokens, j + 1, str, |str|);
  }

  /** A star alone matches every string; a question mark exactly those of one byte. */
  lemma {:induction false} SingleWildcards(str: Bytes)
    ensures Matches(Tokens([STAR], 0), 0, str, 0)
    ensures Matches(Tokens([QUESTION], 0), 0, str, 0) <==> |str| == 1
  {
    assert Tokens([STAR], 1) == [] && Tokens([QUESTION], 1) == [];
    assert Tokens([STAR], 0) == [Star] && Tokens([QUESTION], 0) == [Any];
    assert Matches([Star], 1, str, |str|);
  }

  /** Bytes that stand for themselves inside a class, whatever their neighbours. */
  predicate PlainMember(c: byte) { c != CLOSE && c != BACKSLASH && c != DASH && c != CARET }

  function Ones(members: Bytes): (items: seq<Item>)
    ensures |items| == |members| && forall i :: 0 <= i < |members| ==> items[i] == One(members[i])
  {
    seq(|members|, i requires 0 <= i < |members| => One(members[i]))
  }

  lemma {:induction false} PlainItems(pattern: Bytes, q: nat, members: Bytes)
    requires forall i :: 0 <= i < |members| ==> PlainMember(members[i])
    requires At(pattern, q, members + [CLOSE])
    ensures q + |members| < |pattern| && ClassItems(pattern, q) == (Ones(members), q + |members|)
    decreases |members|
  {
    hide At;
    var all := members + [CLOSE];
    AtFits(pattern, q, all);
    AtIndex(pattern, q, all, 0);
    if members != [] {
      AtIndex(pattern, q, all, 1);
      assert all == all[..1] + all[1..] && all[1..] == members[1..] + [CLOSE];
      AtParts(pattern, q, all[..1], all[1..]);
      PlainItems(pattern, q + 1, members[1..]);
      assert Ones(members) == [One(members[0])] + Ones(members[1..]);
    }
  }

  /** A bracketed list of plain bytes matches exactly the one-byte strings of its members,
      and with a caret in front exactly those of the others. */
  lemma {:induction false} ClassPattern(members: Bytes, negated: bool, str: Bytes)
    requires forall i :: 0 <= i < |members| ==> PlainMember(members[i])
    ensures var pattern := (if negated then [OPEN, CARET] else [OPEN]) + (members + [CLOSE]);
            Matches(Tokens(pattern, 0), 0, str, 0) <==> |str| == 1 && ((str[0] in members) != negated)
  {
    hide TokenAt;
    hide ClassItems;
    var opening := if negated then [OPEN, CARET] else [OPEN];
    var pattern := opening + (members + [CLOSE]);
    var start := |opening|;
    JoinedAt(opening, members + [CLOSE]);
    PlainItems(pattern, start, members);
    assert pattern[1] == if negated then CARET else (members + [CLOSE])[0];
    ClassTokenAt(pattern, 0, start, Ones(members), start + |members|);
    OneToken(pattern, Class(negated, Ones(members)), str);
    OneOfMembers(members, if |str| == 1 then str[0] else 0);
  }

  lemma {:induction false} OneToken(pattern: Bytes, token: Token, str: Bytes)
    requires pattern != [] && TokenAt(pattern, 0) == (token, |pattern|) && !token.Star?
    ensures Matches(Tokens(pattern, 0), 0, str, 0) <==> |str| == 1 && Accepts(token, str[0])
  {
    hide TokenAt;
    hide Accepts;
    assert Tokens(pattern, |pattern|) == [];
    assert Tokens(pattern, 0) == [token];
  }

  lemma {:induction false} OneOfMembers(members: Bytes, c: byte)
    ensures AnyItem(Ones(members), c) <==> c in members
  {
    if c in members {
      var i :| 0 <= i < |members| && members[i] == c;
      assert InItem(Ones(members)[i], c);
    }
  }

  /** A range in brackets matches exactly the one-byte strings between its ends, both
      included, whichever end comes first; bytes above 127 come before all others. */
  lemma {:induction false} RangePattern(a: byte, b: byte, str: Bytes)
    requires PlainMember(a) && b != CLOSE
    ensures Matches(Tokens([OPEN, a, DASH, b, CLOSE], 0), 0, str, 0) <==>
            |str| == 1 && Between(a, b, str[0])
  {
    hide TokenAt;
    var pattern := [OPEN, a, DASH, b, CLOSE];
    assert ClassItems(pattern, 4) == ([], 4);
    assert ClassItem(pattern, 1) == (Span(a, b), 4);
    assert [Span(a, b)] + [] == [Span(a, b)];
    assert ClassItems(pattern, 1) == ([Span(a, b)], 4);
    ClassTokenAt(pattern, 0, 1, [Span(a, b)], 4);
    OneToken(pattern, Class(false, [Span(a, b)]), str);
    if |str| == 1 {
      SpanIsBetween(a, b, str[0]);
    }
  }

  /** The order of `char`, upper half first. */
  predicate NotAfter(a: byte, b: byte) { if a >= 128 then b < 128 || a <= b else b < 128 && a <= b }

  predicate Between(a: byte, b: byte, c: byte)
  {
    (NotAfter(a, c) && NotAfter(c, b)) || (NotAfter(b, c) && NotAfter(c, a))
  }

  lemma {:induction false} SpanIsBetween(a: byte, b: byte, c: byte)
    ensures AnyItem([Span(a, b)], c) <==> Between(a, b, c)
  {
    assert AnyItem([Span(a, b)], c) <==> InItem([Span(a, b)][0], c);
  }

  /** A class that is never closed reaches to the end of the pattern. */
  lemma {:induction false} UnclosedClass(members: Bytes, negated: bool, str: Bytes)
    requires forall i :: 0 <= i < |members| ==> PlainMember(members[i])
    ensures var pattern := (if negated then [OPEN, CARET] else [OPEN]) + members;
            Matches(Tokens(pattern, 0), 0, str, 0) <==> |str| == 1 && ((str[0] in members) != negated)
  {
    hide TokenAt;
    hide ClassItems;
    var opening := if negated then [OPEN, CARET] else [OPEN];
    var pattern := opening + members;
    var start := |opening|;
    assert pattern[start..] == members;
    ItemsToTheEnd(pattern, start);
    UnclosedTokenAt(pattern, start, Ones(members));
    OneToken(pattern, Class(negated, Ones(members)), str);
    OneOfMembers(members, if |str| == 1 then str[0] else 0);
  }

  lemma {:induction false} ItemsToTheEnd(pattern: Bytes, q: nat)
    requires q <= |pattern| && forall i :: q <= i < |pattern| ==> PlainMember(pattern[i])
    ensures ClassItems(pattern, q) == (Ones(pattern[q..]), |pattern|)
    decreases |pattern| - q
  {
    if q < |pattern| {
      ItemsToTheEnd(pattern, q + 1);
      assert Ones(pattern[q..]) == [One(pattern[q])] + Ones(pattern[q + 1..]);
    }
  }

  lemma {:induction false} UnclosedTokenAt(pattern: Bytes, start: nat, items: seq<Item>)
    requires pattern != [] && pattern[0] == OPEN && start == ClassStart(pattern, 0)
    requires ClassItems(pattern, start) == (items, |pattern|)
    ensures TokenAt(pattern, 0) == (Class(start == 2, items), |pattern|)
  {
    hide ClassItems;
    hide ClassStart;
  }

  /** A dash just before the bracket stands for itself. */
  lemma {:induction false} DashAtTheEnd(a: byte, str: Bytes)
    requires PlainMember(a)
    ensures Matches(Tokens([OPEN, a, DASH, CLOSE], 0), 0, str, 0) <==> |str| == 1 && (str[0] == a || str[0] == DASH)
  {
    hide TokenAt;
    var pattern := [OPEN, a, DASH, CLOSE];
    assert ClassItems(pattern, 3) == ([], 3);
    assert [One(DASH)] + [] == Ones([DASH]) && [One(a)] + Ones([DASH]) == Ones([a, DASH]);
    assert ClassItems(pattern, 2) == (Ones([DASH]), 3);
    assert ClassItems(pattern, 1) == (Ones([a, DASH]), 3);
    ClassTokenAt(pattern, 0, 1, Ones([a, DASH]), 3);
    OneToken(pattern, Class(false, Ones([a, DASH])), str);
    OneOfMembers([a, DASH], if |str| == 1 then str[0] else 0);
  }

  /** A backslash with nothing behind it stands for itself. */
  lemma {:induction false} LoneBackslash(str: Bytes)
    ensures Matches(Tokens([BACKSLASH], 0), 0, str, 0) <==> str == [BACKSLASH]
  {
    var pattern := [BACKSLASH];
    assert TokenAt(pattern, 0) == (Literal(BACKSLASH), 1);
    OneToken(pattern, Literal(BACKSLASH), str);
  }
}
