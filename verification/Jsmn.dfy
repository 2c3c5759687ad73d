/** The JSON tokenizer (jsmn.h, in its non-strict form without parent links, with a token array). */
module Jsmn {
  import opened Words

  const NOMEM: int := -1
  const INVAL: int := -2
  const PART: int := -3

  datatype Kind = Undefined | Object | Array | Text | Primitive

  /** A token that has not ended has end == -1. */
  datatype Token = Token(kind: Kind, start: int, end: int, size: int)

  const QUOTE: byte := 34
  const BACKSLASH: byte := 92

  // ---------------------------------------------------------------- what tokens mean

  predicate Container(t: Token) {
    t.kind == Object || t.kind == Array
  }

  predicate IsOpen(t: Token) {
    t.start != -1 && t.end == -1
  }

  function Opening(k: Kind): byte {
    if k == Object then 123 else 91
  }

  function Closing(k: Kind): byte {
    if k == Object then 125 else 93
  }

  predicate Simple(b: byte) {
    b == QUOTE || b == 47 || b == BACKSLASH || b == 98 || b == 102 || b == 114 || b == 110 || b == 116
  }

  predicate Hex(b: byte) {
    48 <= b <= 57 || 65 <= b <= 70 || 97 <= b <= 102
  }

  /** The inside of a string: every quote and backslash in it is part of an escape. */
  predicate Body(s: seq<byte>)
    decreases |s|
  {
    if s == [] then true
    else if s[0] == BACKSLASH then
      && |s| > 1
      && (if s[1] == 117 then |s| >= 6 && Hex(s[2]) && Hex(s[3]) && Hex(s[4]) && Hex(s[5]) && Body(s[6..])
          else Simple(s[1]) && Body(s[2..]))
    else s[0] != QUOTE && Body(s[1..])
  }

  lemma {:induction false} BodyAppend(x: seq<byte>, y: seq<byte>)
    requires Body(x) && Body(y)
    ensures Body(x + y)
    decreases |x|
  {
    if x == [] {
      assert x + y == y;
    } else {
      var n := if x[0] != BACKSLASH then 1 else if x[1] == 117 then 6 else 2;
      assert (x + y)[n..] == x[n..] + y;
      BodyAppend(x[n..], y);
    }
  }

  /** A token of the text before `pos`. */
  predicate Shaped(js: seq<byte>, t: Token, pos: nat)
    requires pos <= |js|
  {
    match t.kind
    case Undefined => false
    case Text => 0 < t.start <= t.end < pos && js[t.start - 1] == QUOTE == js[t.end] && Body(js[t.start..t.end])
    case Primitive => 0 <= t.start < t.end <= pos
    case _ =>
      && 0 <= t.start < pos && js[t.start] == Opening(t.kind)
      && (t.end == -1 || (t.start + 2 <= t.end <= pos && js[t.end - 1] == Closing(t.kind)))
  }

  /** `t` comes before `u`: it has ended before `u` starts, or `u` lies inside it. */
  predicate Nests(t: Token, u: Token) {
    && t.start < u.start
    && (IsOpen(t) || t.end <= u.start || (Container(t) && !IsOpen(u) && u.end < t.end))
  }

  ghost predicate Laid(js: seq<byte>, ts: seq<Token>, pos: nat) {
    && pos <= |js|
    && (forall i :: 0 <= i < |ts| ==> Shaped(js, ts[i], pos) && ts[i].size >= 0)
    && (forall i, j :: 0 <= i < j < |ts| ==> Nests(ts[i], ts[j]))
  }

  lemma LaidLater(js: seq<byte>, ts: seq<Token>, pos: nat, pos': nat)
    requires Laid(js, ts, pos) && pos <= pos' <= |js|
    ensures Laid(js, ts, pos')
  {
  }

  /** A new token behind everything so far. */
  lemma LaidMore(js: seq<byte>, ts: seq<Token>, pos: nat, t: Token, pos': nat)
    requires Laid(js, ts, pos) && pos <= pos' && pos' <= |js| && Shaped(js, t, pos') && t.start >= pos && t.size >= 0
    ensures Laid(js, ts + [t], pos')
  {
    LaidLater(js, ts, pos, pos');
  }

  lemma LaidSize(js: seq<byte>, ts: seq<Token>, pos: nat, k: nat)
    requires Laid(js, ts, pos) && k < |ts|
    ensures Laid(js, ts[k := ts[k].(size := ts[k].size + 1)], pos)
  {
  }

  /** Closing the newest open container. */
  lemma LaidClosed(js: seq<byte>, ts: seq<Token>, pos: nat, k: nat)
    requires Laid(js, ts, pos) && k < |ts| && IsOpen(ts[k]) && Container(ts[k]) && pos < |js|
    requires js[pos] == Closing(ts[k].kind)
    requires forall i :: k < i < |ts| ==> !IsOpen(ts[i])
    ensures Laid(js, ts[k := ts[k].(end := pos + 1)], pos + 1)
  {
    LaidLater(js, ts, pos, pos + 1);
  }

  // ---------------------------------------------------------------- what sizes count

  function Count(parents: seq<int>, k: int): nat {
    if parents == [] then 0
    else Count(parents[..|parents| - 1], k) + if parents[|parents| - 1] == k then 1 else 0
  }

  lemma CountMore(parents: seq<int>, p: int, k: int)
    ensures Count(parents + [p], k) == Count(parents, k) + if p == k then 1 else 0
  {
    assert (parents + [p])[..|parents|] == parents;
  }

  lemma {:induction false} CountNone(parents: seq<int>, k: int)
    requires forall i :: 0 <= i < |parents| ==> parents[i] != k
    ensures Count(parents, k) == 0
    decreases |parents|
  {
    if parents != [] {
      CountNone(parents[..|parents| - 1], k);
    }
  }

  /** The size of a token is the number of tokens attached to it, and a token is attached only to an
      earlier one. */
  ghost predicate Attached(ts: seq<Token>, parents: seq<int>) {
    && |parents| == |ts|
    && (forall i :: 0 <= i < |ts| ==> -1 <= parents[i] < i)
    && (forall k :: 0 <= k < |ts| ==> ts[k].size == Count(parents, k))
  }

  lemma AttachedMore(ts: seq<Token>, parents: seq<int>, t: Token, super: int)
    requires Attached(ts, parents) && -1 <= super < |ts| && t.size == 0
    ensures var us := ts + [t];
            Attached(if super == -1 then us else us[super := us[super].(size := us[super].size + 1)], parents + [super])
  {
    CountNone(parents, |ts|);
    forall k | 0 <= k <= |ts| ensures Count(parents + [super], k) == Count(parents, k) + if super == k then 1 else 0 {
      CountMore(parents, super, k);
    }
  }

  function SizeSum(ts: seq<Token>): int {
    if ts == [] then 0 else SizeSum(ts[..|ts| - 1]) + ts[|ts| - 1].size
  }

  function CountSum(parents: seq<int>, n: nat): nat {
    if n == 0 then 0 else CountSum(parents, n - 1) + Count(parents, n - 1)
  }

  lemma {:induction false} CountSumMore(parents: seq<int>, p: int, n: nat)
    ensures CountSum(parents + [p], n) == CountSum(parents, n) + if 0 <= p < n then 1 else 0
    decreases n
  {
    if n > 0 {
      CountMore(parents, p, n - 1);
      CountSumMore(parents, p, n - 1);
    }
  }

  lemma {:induction false} CountSumBelow(parents: seq<int>, n: nat)
    requires forall i :: 0 <= i < |parents| ==> parents[i] < i
    ensures CountSum(parents, n) <= if parents == [] then 0 else |parents| - 1
    decreases |parents|
  {
    if parents == [] {
      NoCounts(n);
    } else {
      var rest := parents[..|parents| - 1];
      assert parents == rest + [parents[|parents| - 1]];
      CountSumMore(rest, parents[|parents| - 1], n);
      CountSumBelow(rest, n);
    }
  }

  lemma {:induction false} NoCounts(n: nat)
    ensures CountSum([], n) == 0
    decreases n
  {
    if n > 0 {
      NoCounts(n - 1);
    }
  }

  lemma {:induction false} SizeSumIs(ts: seq<Token>, parents: seq<int>, n: nat)
    requires n <= |ts| && forall k :: 0 <= k < n ==> ts[k].size == Count(parents, k)
    ensures SizeSum(ts[..n]) == CountSum(parents, n)
    decreases n
  {
    if n > 0 {
      SizeSumIs(ts, parents, n - 1);
      assert ts[..n][..n - 1] == ts[..n - 1];
    }
  }

  /** The sizes of all tokens sum to less than their number. */
  lemma SizesBelow(ts: seq<Token>, parents: seq<int>)
    requires Attached(ts, parents)
    ensures SizeSum(ts) <= if ts == [] then 0 else |ts| - 1
  {
    SizeSumIs(ts, parents, |ts|);
    assert ts[..|ts|] == ts;
    CountSumBelow(parents, |ts|);
  }

  /** Everything that is kept about the tokens so far. */
  ghost predicate Sound(js: seq<byte>, ts: seq<Token>, parents: seq<int>, pos: nat) {
    pos <= |js| && |parents| == |ts| && Sealed(3, js, ts, parents, pos)
  }

  /** The parser looks inside only through Open and Close. */
  ghost predicate Sealed(n: nat, js: seq<byte>, ts: seq<Token>, parents: seq<int>, pos: nat)
    decreases n, ts
  {
    if n > 0 then Sealed(n - 1, js, ts, parents, pos) else Laid(js, ts, pos) && Attached(ts, parents)
  }

  lemma Open(js: seq<byte>, ts: seq<Token>, parents: seq<int>, pos: nat)
    requires Sound(js, ts, parents, pos)
    ensures Laid(js, ts, pos) && Attached(ts, parents)
  {
    assert Sealed(2, js, ts, parents, pos);
    assert Sealed(1, js, ts, parents, pos);
    assert Sealed(0, js, ts, parents, pos);
  }

  lemma Close(js: seq<byte>, ts: seq<Token>, parents: seq<int>, pos: nat)
    requires Laid(js, ts, pos) && Attached(ts, parents)
    ensures Sound(js, ts, parents, pos)
  {
    assert Sealed(0, js, ts, parents, pos);
    assert Sealed(1, js, ts, parents, pos);
    assert Sealed(2, js, ts, parents, pos);
  }

  lemma SoundLater(js: seq<byte>, ts: seq<Token>, parents: seq<int>, pos: nat, pos': nat)
    requires Sound(js, ts, parents, pos) && pos <= pos' <= |js|
    ensures Sound(js, ts, parents, pos')
  {
    Open(js, ts, parents, pos);
    LaidLater(js, ts, pos, pos');
    Close(js, ts, parents, pos');
  }

  /** The tokens with a new one, counted in the size of `super`. */
  function Extended(ts: seq<Token>, t: Token, super: int): seq<Token>
    requires -1 <= super < |ts|
  {
    if super == -1 then ts + [t] else (ts + [t])[super := ts[super].(size := ts[super].size + 1)]
  }

  lemma SoundMore(js: seq<byte>, ts: seq<Token>, parents: seq<int>, pos: nat, t: Token, super: int, pos': nat)
    requires Sound(js, ts, parents, pos) && pos <= pos' <= |js| && -1 <= super < |ts|
    requires Shaped(js, t, pos') && t.start >= pos && t.size == 0
    ensures Sound(js, Extended(ts, t, super), parents + [super], pos')
  {
    Open(js, ts, parents, pos);
    LaidExtended(js, ts, pos, t, super, pos');
    AttachedExtended(ts, parents, t, super);
    Close(js, Extended(ts, t, super), parents + [super], pos');
  }

  lemma LaidExtended(js: seq<byte>, ts: seq<Token>, pos: nat, t: Token, super: int, pos': nat)
    requires Laid(js, ts, pos) && pos <= pos' <= |js| && -1 <= super < |ts| && Shaped(js, t, pos') && t.start >= pos
    requires t.size == 0
    ensures Laid(js, Extended(ts, t, super), pos')
  {
    LaidMore(js, ts, pos, t, pos');
    if super != -1 {
      var all := CountedIn(ts, t, super);
      LaidSize(js, all, pos', super);
    }
  }

  lemma CountedIn(ts: seq<Token>, t: Token, super: int) returns (all: seq<Token>)
    requires 0 <= super < |ts|
    ensures all == ts + [t] && super < |all|
    ensures Extended(ts, t, super) == all[super := all[super].(size := all[super].size + 1)]
  {
    all := ts + [t];
  }

  lemma AttachedExtended(ts: seq<Token>, parents: seq<int>, t: Token, super: int)
    requires Attached(ts, parents) && -1 <= super < |ts| && t.size == 0
    ensures Attached(Extended(ts, t, super), parents + [super])
  {
    AttachedMore(ts, parents, t, super);
  }

  lemma SoundClosed(js: seq<byte>, ts: seq<Token>, parents: seq<int>, pos: nat, k: nat)
    requires Sound(js, ts, parents, pos) && k < |ts| && IsOpen(ts[k]) && pos < |js|
    requires forall i :: k < i < |ts| ==> !IsOpen(ts[i])
    ensures Container(ts[k])
    ensures js[pos] == Closing(ts[k].kind) ==> Sound(js, ts[k := ts[k].(end := pos + 1)], parents, pos + 1)
  {
    Open(js, ts, parents, pos);
    if js[pos] == Closing(ts[k].kind) {
      LaidClosed(js, ts, pos, k);
      Close(js, ts[k := ts[k].(end := pos + 1)], parents, pos + 1);
    }
  }

  // ---------------------------------------------------------------- the parser

  predicate Blank(b: byte) {
    b == 9 || b == 13 || b == 10 || b == 32
  }

  /** What ends a primitive: white space, a comma, a colon or a closing bracket. */
  predicate Ends(b: byte) {
    Blank(b) || b == 58 || b == 44 || b == 93 || b == 125
  }

  class Parser {
    const tokens: array<Token>
    var pos: nat
    var toknext: nat
    var toksuper: int
    /** Per token, the token whose size it is counted in, or -1. */
    ghost var parents: seq<int>

    function Allocated(): seq<Token>
      requires toknext <= tokens.Length
      reads this, tokens
    {
      tokens[..toknext]
    }

    ghost predicate Valid(js: seq<byte>)
      reads this, tokens
    {
      && toknext <= tokens.Length && -1 <= toksuper < toknext
      && Sound(js, Allocated(), parents, pos)
    }

    /** jsmn_init */
    constructor (capacity: nat, js: seq<byte>)
      ensures Valid(js) && fresh(tokens) && tokens.Length == capacity && pos == 0 && toknext == 0 && toksuper == -1
    {
      tokens := new Token[capacity](_ => Token(Undefined, 0, 0, 0));
      pos, toknext, toksuper, parents := 0, 0, -1, [];
      new;
      Close(js, Allocated(), parents, pos);
    }

    /** jsmn_alloc_token and jsmn_fill_token */
    method NewToken(t: Token) returns (ok: bool)
      requires toknext <= tokens.Length
      modifies `toknext, tokens
      ensures toknext <= tokens.Length && ok == (old(toknext) < tokens.Length)
      ensures Allocated() == if ok then old(Allocated()) + [t] else old(Allocated())
    {
      if toknext >= tokens.Length {
        return false;
      }
      tokens[toknext] := t;
      toknext := toknext + 1;
      return true;
    }

    /** jsmn_parse_primitive */
    method ParsePrimitive(js: seq<byte>) returns (r: int)
      requires Valid(js) && pos < |js| && js[pos] != 0 && !Ends(js[pos])
      modifies `pos, `toknext, tokens
      ensures toknext <= tokens.Length && r in {0, NOMEM, INVAL}
      ensures r < 0 ==> pos == old(pos) && Allocated() == old(Allocated()) && (r == NOMEM ==> toknext == tokens.Length)
      ensures r == 0 ==>
                old(pos) <= pos < |js| && Allocated() == old(Allocated()) + [Token(Primitive, old(pos), pos + 1, 0)]
      ensures r == 0 ==> forall i :: old(pos) <= i <= pos ==> 32 <= js[i] < 127 && !Ends(js[i])
      ensures r == 0 ==> pos + 1 == |js| || js[pos + 1] == 0 || Ends(js[pos + 1])
    {
      var start := pos;
      while pos < |js| && js[pos] != 0 && !Ends(js[pos])
        invariant start <= pos <= |js| && toknext == old(toknext) && tokens[..] == old(tokens[..])
        invariant forall i :: start <= i < pos ==> 32 <= js[i] < 127 && !Ends(js[i])
      {
        if js[pos] < 32 || js[pos] >= 127 {
          pos := start;
          return INVAL;
        }
        pos := pos + 1;
      }
      var ok := NewToken(Token(Primitive, start, pos, 0));
      if !ok {
        pos := start;
        return NOMEM;
      }
      pos := pos - 1;
      return 0;
    }

    /** The four digits of an escape; fewer only when the text ends among them. */
    method SkipHex(js: seq<byte>) returns (ok: bool)
      requires pos <= |js|
      modifies `pos
      ensures old(pos) <= pos <= |js| && pos <= old(pos) + 4
      ensures forall i :: old(pos) <= i < pos ==> Hex(js[i])
      ensures ok ==> pos == old(pos) + 4 || pos == |js| || js[pos] == 0
    {
      var i := 0;
      while i < 4 && pos < |js| && js[pos] != 0
        invariant 0 <= i <= 4 && pos == old(pos) + i <= |js|
        invariant forall k :: old(pos) <= k < pos ==> Hex(js[k])
      {
        if !Hex(js[pos]) {
          return false;
        }
        pos := pos + 1;
        i := i + 1;
      }
      return true;
    }

    /** One character of a string, or one escape. */
    method SkipUnit(js: seq<byte>) returns (ok: bool)
      requires pos < |js| && js[pos] != QUOTE
      modifies `pos
      ensures old(pos) < pos <= |js|
      ensures ok && pos < |js| && js[pos] != 0 ==> Body(js[old(pos)..pos])
    {
      ghost var from := pos;
      if js[pos] == BACKSLASH && pos + 1 < |js| {
        pos := pos + 1;
        if js[pos] == 117 {
          pos := pos + 1;
          var hex := SkipHex(js);
          if !hex {
            return false;
          }
          if pos < |js| && js[pos] != 0 {
            EscapeBody(js, from);
          }
          pos := pos - 1;
        } else if !Simple(js[pos]) {
          return false;
        }
      }
      pos := pos + 1;
      ghost var unit := js[from..pos];
      if pos == from + 2 && js[from] == BACKSLASH {
        assert unit == [js[from], js[from + 1]] && unit[2..] == [];
      } else if pos == from + 1 {
        assert unit == [js[from]] && unit[1..] == [];
      }
      return true;
    }

    /** jsmn_parse_string.  The token is the text between the quotes, every quote inside it escaped. */
    method ParseString(js: seq<byte>) returns (r: int)
      requires Valid(js) && pos < |js| && js[pos] == QUOTE
      modifies `pos, `toknext, tokens
      ensures toknext <= tokens.Length && r in {0, NOMEM, INVAL, PART}
      ensures r < 0 ==> pos == old(pos) && Allocated() == old(Allocated()) && (r == NOMEM ==> toknext == tokens.Length)
      ensures r == 0 ==> old(pos) < pos < |js| && js[pos] == QUOTE && Body(js[old(pos) + 1..pos])
      ensures r == 0 ==> Allocated() == old(Allocated()) + [Token(Text, old(pos) + 1, pos, 0)]
    {
      var start := pos;
      pos := pos + 1;
      assert js[start + 1..pos] == [];
      while pos < |js| && js[pos] != 0
        invariant start < pos <= |js| && toknext == old(toknext) && tokens[..] == old(tokens[..])
        invariant pos < |js| && js[pos] != 0 ==> Body(js[start + 1..pos])
        decreases |js| - pos
      {
        if js[pos] == QUOTE {
          var ok := NewToken(Token(Text, start + 1, pos, 0));
          if !ok {
            pos := start;
            return NOMEM;
          }
          return 0;
        }
        ghost var from := pos;
        var ok := SkipUnit(js);
        if !ok {
          pos := start;
          return INVAL;
        }
        if pos < |js| && js[pos] != 0 {
          BodyMore(js, start + 1, from, pos);
        }
      }
      pos := start;
      return PART;
    }

    /** The newest token, `t`, is counted in the size of the superior one. */
    method Attach(js: seq<byte>, ghost ts: seq<Token>, ghost from: nat, ghost t: Token)
      requires 0 < toknext <= tokens.Length && -1 <= toksuper < |ts| && pos < |js| && from <= pos + 1
      requires Allocated() == ts + [t] && Sound(js, ts, parents, from) && Shaped(js, t, pos + 1) && t.start >= from
      requires t.size == 0
      modifies `parents, tokens
      ensures Sound(js, Allocated(), parents, pos + 1)
    {
      SoundMore(js, ts, parents, from, t, toksuper, pos + 1);
      if toksuper != -1 {
        assert tokens[toksuper] == Allocated()[toksuper] == ts[toksuper];
        tokens[toksuper] := tokens[toksuper].(size := tokens[toksuper].size + 1);
      }
      assert Allocated() == Extended(ts, t, toksuper);
      parents := parents + [toksuper];
    }

    /** An opening bracket. */
    method OpenContainer(js: seq<byte>, kind: Kind) returns (r: int)
      requires Valid(js) && pos < |js| && (kind == Object || kind == Array) && js[pos] == Opening(kind)
      modifies `toknext, `toksuper, `parents, tokens
      ensures r in {0, NOMEM} && toknext == old(toknext) + (if r == 0 then 1 else 0)
      ensures r == NOMEM ==> toknext == tokens.Length && Valid(js)
      ensures r == 0 ==> toknext <= tokens.Length && toksuper == toknext - 1 && Sound(js, Allocated(), parents, pos + 1)
    {
      ghost var ts := Allocated();
      var t := Token(kind, pos, -1, 0);
      var ok := NewToken(t);
      if !ok {
        return NOMEM;
      }
      Attach(js, ts, pos, t);
      toksuper := toknext - 1;
      return 0;
    }

    /** The newest open token below `from`, or -1. */
    method NewestOpen(from: nat) returns (i: int)
      requires from <= toknext <= tokens.Length
      ensures -1 <= i < from && (i >= 0 ==> IsOpen(tokens[i]))
      ensures forall k :: i < k < from ==> !IsOpen(tokens[k])
    {
      i := from - 1;
      while i >= 0
        invariant -1 <= i < from
        invariant forall k :: i < k < from ==> !IsOpen(tokens[k])
      {
        if IsOpen(tokens[i]) {
          return;
        }
        i := i - 1;
      }
    }

    /** A closing bracket ends the newest open container, which must be of its kind; the one around
        it, if any, becomes the superior token. */
    method CloseContainer(js: seq<byte>, kind: Kind) returns (ok: bool)
      requires Valid(js) && pos < |js| && (kind == Object || kind == Array) && js[pos] == Closing(kind)
      modifies `toksuper, tokens
      ensures !ok ==> Valid(js) && Allocated() == old(Allocated())
      ensures ok ==> -1 <= toksuper < toknext && Sound(js, Allocated(), parents, pos + 1)
      ensures ok ==> toksuper == -1 || IsOpen(tokens[toksuper])
      ensures ok ==> forall k :: toksuper < k < toknext ==> !IsOpen(tokens[k])
    {
      ghost var ts := Allocated();
      var i := NewestOpen(toknext);
      if i == -1 {
        return false;
      }
      assert forall k :: i <= k < toknext ==> ts[k] == tokens[k];
      SoundClosed(js, ts, parents, pos, i);
      if tokens[i].kind != kind {
        return false;
      }
      tokens[i] := tokens[i].(end := pos + 1);
      assert Allocated() == ts[i := ts[i].(end := pos + 1)];
      toksuper := NewestOpen(i);
      return true;
    }

    /** A comma inside a container makes it the superior token again. */
    method Comma(js: seq<byte>)
      requires Valid(js)
      modifies `toksuper
      ensures Valid(js)
    {
      if toksuper != -1 && !Container(tokens[toksuper]) {
        var i := NewestOpen(toknext);
        if i >= 0 {
          toksuper := i;
        }
      }
    }

    /** A string or a primitive. */
    method Leaf(js: seq<byte>) returns (r: int)
      requires Valid(js) && pos < |js| && js[pos] != 0 && (js[pos] == QUOTE || !Ends(js[pos]))
      modifies `pos, `toknext, `parents, tokens
      ensures r in {0, NOMEM, INVAL, PART} && (r == NOMEM ==> toknext == tokens.Length)
      ensures r < 0 ==> Valid(js) && pos == old(pos) && toknext == old(toknext)
      ensures r == 0 ==>
                old(pos) <= pos < |js| && toknext == old(toknext) + 1 <= tokens.Length && -1 <= toksuper < toknext
      ensures r == 0 ==> Sound(js, Allocated(), parents, pos + 1)
    {
      ghost var ts, from := Allocated(), pos;
      if js[pos] == QUOTE {
        r := ParseString(js);
        if r == 0 {
          Attach(js, ts, from, Token(Text, from + 1, pos, 0));
        }
      } else {
        r := ParsePrimitive(js);
        if r == 0 {
          Attach(js, ts, from, Token(Primitive, from, pos + 1, 0));
        }
      }
    }

    /** One turn of the loop of jsmn_parse: a token begins or ends, or the superior token changes. */
    method Character(js: seq<byte>) returns (r: int, added: nat)
      requires Valid(js) && pos < |js| && js[pos] != 0
      modifies this, tokens
      ensures r in {0, NOMEM, INVAL, PART} && (r == NOMEM ==> toknext == tokens.Length)
      ensures r < 0 ==> Valid(js) && pos == old(pos) && toknext == old(toknext)
      ensures r == 0 ==>
                old(pos) <= pos < |js| && toknext == old(toknext) + added <= tokens.Length && -1 <= toksuper < toknext
      ensures r == 0 ==> Sound(js, Allocated(), parents, pos + 1)
    {
      var c := js[pos];
      r, added := 0, 0;
      if c == 123 || c == 91 {
        added := 1;
        r := OpenContainer(js, if c == 123 then Object else Array);
      } else if c == 125 || c == 93 {
        var ok := CloseContainer(js, if c == 125 then Object else Array);
        if !ok {
          r := INVAL;
        }
      } else if Blank(c) || c == 58 || c == 44 {
        SoundLater(js, Allocated(), parents, pos, pos + 1);
        if c == 58 {
          toksuper := toknext - 1;
        } else if c == 44 {
          Comma(js);
        }
      } else {
        added := 1;
        r := Leaf(js);
      }
    }

    /** jsmn_parse.  On success the result is the number of tokens, every container is closed,
        tokens lie in the order of their starts and any two are nested or disjoint, brackets and
        quotes match, and the sizes sum to less than the number of tokens. */
    method Parse(js: seq<byte>) returns (r: int)
      requires Valid(js)
      modifies this, tokens
      ensures Valid(js) && old(pos) <= pos && toknext >= old(toknext)
      ensures r >= 0 || r in {NOMEM, INVAL, PART}
      ensures r == NOMEM ==> toknext == tokens.Length
      ensures r >= 0 ==> r == toknext && (pos == |js| || js[pos] == 0)
      ensures r >= 0 ==> forall i :: 0 <= i < r ==> !IsOpen(tokens[i]) && Shaped(js, tokens[i], pos)
      ensures r >= 0 ==> forall i, j :: 0 <= i < j < r ==> Nests(tokens[i], tokens[j])
      ensures r > 0 ==> SizeSum(Allocated()) <= r - 1
      ensures r == PART ==> pos < |js| || exists i :: 0 <= i < toknext && IsOpen(tokens[i])
    {
      var count := toknext;
      while pos < |js| && js[pos] != 0
        invariant Valid(js) && count == toknext && old(pos) <= pos && toknext >= old(toknext)
        decreases |js| - pos
      {
        var added;
        r, added := Character(js);
        if r < 0 {
          return;
        }
        count := count + added;
        pos := pos + 1;
      }
      var i := NewestOpen(toknext);
      if i >= 0 {
        return PART;
      }
      Finished(js);
      r := count;
    }

    lemma Finished(js: seq<byte>)
      requires Valid(js)
      ensures forall i :: 0 <= i < toknext ==> Shaped(js, tokens[i], pos)
      ensures forall i, j :: 0 <= i < j < toknext ==> Nests(tokens[i], tokens[j])
      ensures toknext > 0 ==> SizeSum(Allocated()) <= toknext - 1
    {
      Open(js, Allocated(), parents, pos);
      SizesBelow(Allocated(), parents);
      assert forall i :: 0 <= i < toknext ==> Allocated()[i] == tokens[i];
    }
  }

  lemma BodyMore(js: seq<byte>, a: nat, b: nat, c: nat)
    requires a <= b <= c <= |js| && Body(js[a..b]) && Body(js[b..c])
    ensures Body(js[a..c])
  {
    BodyAppend(js[a..b], js[b..c]);
    assert js[a..b] + js[b..c] == js[a..c];
  }

  lemma EscapeBody(js: seq<byte>, a: nat)
    requires a + 6 <= |js| && js[a] == BACKSLASH && js[a + 1] == 117 && Hex(js[a + 2]) && Hex(js[a + 3])
    requires Hex(js[a + 4]) && Hex(js[a + 5])
    ensures Body(js[a..a + 6])
  {
    var unit := js[a..a + 6];
    assert unit[6..] == [];
  }
}
