/** The quote-swapping mutator, and exactly which texts it rewrites without changing their meaning. */
module QuoteSwap {
  import opened Common

  const BACKSLASH: char := '\\'

  predicate IsQuote(c: char) {
    c == '\'' || c == '"' || c == '`'
  }

  /** The two other quotes, in the order the program lists them. */
  function OtherQuote(q: char, second: bool): char
    requires IsQuote(q)
  {
    if second then (if q == '`' then '"' else '`')
    else (if q == '\'' then '"' else '\'')
  }

  // ---------------------------------------------------------------- reading a text

  /** What a text is made of: ordinary characters, quotes without a partner, and literals. */
  datatype Token = Plain(c: char) | Stray(q: char) | Literal(q: char, body: string)

  /** `find`: the first position of `c`, if any. */
  function Find(text: string, c: char): (r: Option<nat>)
    ensures r.Some? ==> r.value < |text| && text[r.value] == c && c !in text[..r.value]
    ensures r.None? ==> c !in text
  {
    if text == "" then None
    else if text[0] == c then Some(0)
    else
      var r := Find(text[1..], c);
      assert text == [text[0]] + text[1..];
      if r.None? then None
      else
        assert text[..r.value + 1] == [text[0]] + text[1..][..r.value];
        Some(r.value + 1)
  }

  /** How the mutator reads: the next equal quote closes a literal. */
  function Scan(text: string): seq<Token>
    decreases |text|
  {
    if text == "" then []
    else if !IsQuote(text[0]) then [Plain(text[0])] + Scan(text[1..])
    else
      var end := Find(text[1..], text[0]);
      if end.None? then [Stray(text[0])] + Scan(text[1..])
      else [Literal(text[0], text[1..][..end.value])] + Scan(text[1..][end.value + 1..])
  }

  /** The body of a literal up to its closing quote, and what follows. A backslash takes the next
      character with it, and is dropped in front of the delimiter. */
  function ReadBody(text: string, q: char): (r: Option<(string, string)>)
    ensures r.Some? ==> |r.value.1| < |text|
    decreases |text|
  {
    if text == "" then None
    else if text[0] == q then Some(("", text[1..]))
    else if text[0] != '\\' then Prepend(text[..1], ReadBody(text[1..], q))
    else if |text| == 1 then None
    else Prepend(if text[1] == q then [q] else text[..2], ReadBody(text[2..], q))
  }

  function Prepend(front: string, r: Option<(string, string)>): Option<(string, string)> {
    if r.None? then None else Some((front + r.value.0, r.value.1))
  }

  /** How a language with escapes reads. */
  function Rescan(text: string): seq<Token>
    decreases |text|
  {
    if text == "" then []
    else if !IsQuote(text[0]) then [Plain(text[0])] + Rescan(text[1..])
    else
      var r := ReadBody(text[1..], text[0]);
      if r.None? then [Stray(text[0])] + Rescan(text[1..])
      else [Literal(text[0], r.value.0)] + Rescan(r.value.1)
  }

  // ---------------------------------------------------------------- writing it back

  /** `replace(q, "\\" + q)`. */
  function Escape(body: string, q: char): string {
    if body == "" then ""
    else (if body[0] == q then [BACKSLASH, q] else [body[0]]) + Escape(body[1..], q)
  }

  /** The random stream: which of the two other quotes the n-th literal gets. */
  type Choices = nat -> bool

  function Write(t: Token, second: bool): string
    requires t.Literal? ==> IsQuote(t.q)
  {
    match t
    case Plain(c) => [c]
    case Stray(q) => [q]
    case Literal(q, body) => var q' := OtherQuote(q, second); [q'] + Escape(body, q') + [q']
  }

  predicate WellFormedToken(t: Token) {
    match t
    case Plain(c) => !IsQuote(c)
    case Stray(q) => IsQuote(q)
    case Literal(q, _) => IsQuote(q)
  }

  predicate WellFormed(ts: seq<Token>) {
    forall i :: 0 <= i < |ts| ==> WellFormedToken(ts[i])
  }

  function Render(ts: seq<Token>, choices: Choices, n: nat): string
    requires WellFormed(ts)
  {
    if ts == [] then ""
    else Write(ts[0], choices(n)) + Render(ts[1..], choices, if ts[0].Literal? then n + 1 else n)
  }

  /** The same tokens with every delimiter changed. */
  function Swapped(ts: seq<Token>, choices: Choices, n: nat): seq<Token>
    requires WellFormed(ts)
  {
    if ts == [] then []
    else if ts[0].Literal? then
      [Literal(OtherQuote(ts[0].q, choices(n)), ts[0].body)] + Swapped(ts[1..], choices, n + 1)
    else [ts[0]] + Swapped(ts[1..], choices, n)
  }

  // ---------------------------------------------------------------- one literal

  /** Reading the body in steps of one character or one escape, no escape protects `q` and none is cut off. */
  predicate Clean(body: string, q: char)
    decreases |body|
  {
    if body == "" then true
    else if body[0] != '\\' then Clean(body[1..], q)
    else |body| >= 2 && body[1] != q && Clean(body[2..], q)
  }

  lemma {:induction false} ReadEscaped(body: string, q: char, rest: string)
    requires IsQuote(q) && Clean(body, q)
    ensures ReadBody(Escape(body, q) + [q] + rest, q) == Some((body, rest))
    decreases |body|
  {
    var text := Escape(body, q) + [q] + rest;
    if body == "" {
      assert text[1..] == rest;
    } else if body[0] == q {
      ReadEscaped(body[1..], q, rest);
      assert text[2..] == Escape(body[1..], q) + [q] + rest;
      assert body == [q] + body[1..];
    } else if body[0] != BACKSLASH {
      ReadEscaped(body[1..], q, rest);
      assert text[1..] == Escape(body[1..], q) + [q] + rest;
      assert body == text[..1] + body[1..];
    } else {
      ReadEscaped(body[2..], q, rest);
      assert Escape(body, q) == [BACKSLASH, body[1]] + Escape(body[2..], q) by {
        assert body[1..][1..] == body[2..];
      }
      assert text[2..] == Escape(body[2..], q) + [q] + rest;
      assert body == text[..2] + body[2..];
    }
  }

  /** And only then is the body read back. */
  lemma {:induction false} ReadUnclean(body: string, q: char, rest: string)
    requires IsQuote(q) && !Clean(body, q)
    ensures
      var r := ReadBody(Escape(body, q) + [q] + rest, q);
      r.None? || r.value.0 != body
    decreases |body|
  {
    var text := Escape(body, q) + [q] + rest;
    var r := ReadBody(text, q);
    if body[0] == q {
      ReadUnclean(body[1..], q, rest);
      assert text[2..] == Escape(body[1..], q) + [q] + rest;
      assert r.Some? ==> r.value.0[1..] == ReadBody(text[2..], q).value.0;
    } else if body[0] != BACKSLASH {
      ReadUnclean(body[1..], q, rest);
      assert text[1..] == Escape(body[1..], q) + [q] + rest;
      assert r.Some? ==> r.value.0[1..] == ReadBody(text[1..], q).value.0;
    } else if |body| == 1 {
      assert Escape(body, q) == [BACKSLASH] by { assert body[1..] == ""; }
      assert text[1] == q;
    } else if body[1] == q {
      assert Escape(body, q) == [BACKSLASH] + ([BACKSLASH, q] + Escape(body[1..][1..], q));
      assert text[1] == BACKSLASH && r.Some? ==> r.value.0[1] == BACKSLASH;
    } else {
      ReadUnclean(body[2..], q, rest);
      assert Escape(body, q) == [BACKSLASH, body[1]] + Escape(body[2..], q) by {
        assert body[1..][1..] == body[2..];
      }
      assert text[2..] == Escape(body[2..], q) + [q] + rest;
      assert r.Some? ==> r.value.0[2..] == ReadBody(text[2..], q).value.0;
    }
  }

  // ---------------------------------------------------------------- token lists

  /** The token's own character or delimiter. */
  function Mark(t: Token): char {
    match t
    case Plain(c) => c
    case Stray(q) => q
    case Literal(q, _) => q
  }

  /** A quote without a partner does not occur again. */
  ghost predicate Unpartnered(ts: seq<Token>) {
    forall i, j :: 0 <= i < j < |ts| && ts[i].Stray? ==> Mark(ts[j]) != ts[i].q
  }

  ghost predicate CharsFrom(t: Token, text: string) {
    Mark(t) in text && (t.Literal? ==> forall c :: c in t.body ==> c in text)
  }

  /** The first token of a text, and where the next one starts. */
  function FirstToken(text: string): (Token, string)
    requires text != ""
  {
    if !IsQuote(text[0]) then (Plain(text[0]), text[1..])
    else
      var end := Find(text[1..], text[0]);
      if end.None? then (Stray(text[0]), text[1..])
      else (Literal(text[0], text[1..][..end.value]), text[1..][end.value + 1..])
  }

  lemma {:induction false} ScanCons(text: string)
    requires text != ""
    ensures Scan(text) == [FirstToken(text).0] + Scan(FirstToken(text).1)
  {
  }

  lemma {:induction false} FirstTokenShape(text: string)
    requires text != ""
    ensures
      var (t, rest) := FirstToken(text);
      && |rest| < |text| && WellFormedToken(t) && CharsFrom(t, text)
      && (forall c :: c in rest ==> c in text)
      && (t.Stray? ==> t.q !in rest)
  {
  }

  lemma {:induction false} ScanShape(text: string)
    ensures WellFormed(Scan(text)) && Unpartnered(Scan(text))
    ensures forall i :: 0 <= i < |Scan(text)| ==> CharsFrom(Scan(text)[i], text)
    decreases |text|
  {
    if text != "" {
      ScanCons(text);
      FirstTokenShape(text);
      var (t, rest) := FirstToken(text);
      hide Scan, FirstToken, WellFormedToken;
      ScanShape(rest);
      assert Scan(text)[1..] == Scan(rest);
    }
  }

  ghost predicate Recovers(ts: seq<Token>, choices: Choices, n: nat)
    requires WellFormed(ts)
  {
    Rescan(Render(ts, choices, n)) == Swapped(ts, choices, n)
  }

  /** Every literal survives either new delimiter. */
  ghost predicate CleanLiterals(ts: seq<Token>)
    requires WellFormed(ts)
  {
    forall i, second :: 0 <= i < |ts| && ts[i].Literal? ==> Clean(ts[i].body, OtherQuote(ts[i].q, second))
  }

  /** No literal follows a quote without a partner. */
  ghost predicate StraysLast(ts: seq<Token>) {
    forall i, j :: 0 <= i < j < |ts| && ts[i].Stray? ==> !ts[j].Literal?
  }

  lemma {:induction false} RescanPlain(c: char, more: string)
    requires !IsQuote(c)
    ensures Rescan([c] + more) == [Plain(c)] + Rescan(more)
  {
    assert ([c] + more)[1..] == more;
  }

  lemma {:induction false} RescanQuote(q: char, more: string)
    requires IsQuote(q)
    ensures Rescan([q] + more) ==
              var r := ReadBody(more, q);
              if r.None? then [Stray(q)] + Rescan(more) else [Literal(q, r.value.0)] + Rescan(r.value.1)
  {
    assert ([q] + more)[1..] == more;
  }

  /** The rendered text of a list, by its first token. */
  lemma {:induction false} RenderCons(ts: seq<Token>, choices: Choices, n: nat)
    requires WellFormed(ts) && ts != []
    ensures
      var n' := if ts[0].Literal? then n + 1 else n;
      && Render(ts, choices, n) == Write(ts[0], choices(n)) + Render(ts[1..], choices, n')
      && Swapped(ts, choices, n)
         == [if ts[0].Literal? then Literal(OtherQuote(ts[0].q, choices(n)), ts[0].body) else ts[0]]
            + Swapped(ts[1..], choices, n')
  {
  }

  lemma {:induction false} NoQuoteNoBody(text: string, q: char)
    requires q !in text
    ensures ReadBody(text, q).None?
    decreases |text|
  {
    if text != "" {
      if text[0] != BACKSLASH {
        NoQuoteNoBody(text[1..], q);
      } else if |text| > 1 {
        NoQuoteNoBody(text[2..], q);
      }
    }
  }

  lemma {:induction false} RenderAvoids(ts: seq<Token>, choices: Choices, n: nat, q: char)
    requires WellFormed(ts) && forall i :: 0 <= i < |ts| ==> !ts[i].Literal? && Mark(ts[i]) != q
    ensures q !in Render(ts, choices, n)
    decreases |ts|
  {
    if ts != [] {
      RenderAvoids(ts[1..], choices, n, q);
    }
  }

  /** If every literal is clean and strays come last, the mutation is read back as intended. */
  lemma {:induction false} CleanRecovers(ts: seq<Token>, choices: Choices, n: nat)
    requires WellFormed(ts) && Unpartnered(ts) && CleanLiterals(ts) && StraysLast(ts)
    ensures Recovers(ts, choices, n)
    decreases |ts|
  {
    hide Clean, OtherQuote, Render, Swapped, Rescan, ReadBody, Escape, IsQuote;
    if ts == [] {
      EmptyRecovers(choices, n);
    } else {
      var rest := ts[1..];
      var n' := if ts[0].Literal? then n + 1 else n;
      CleanRecovers(rest, choices, n');
      RenderCons(ts, choices, n);
      var more := Render(rest, choices, n');
      match ts[0] {
        case Plain(c) =>
          RescanPlain(c, more);
        case Stray(q) =>
          forall i | 0 <= i < |rest| ensures !rest[i].Literal? && Mark(rest[i]) != q {
            assert rest[i] == ts[i + 1];
          }
          RenderAvoids(rest, choices, n', q);
          NoQuoteNoBody(more, q);
          RescanQuote(q, more);
        case Literal(q, body) =>
          var q' := OtherQuote(q, choices(n));
          OtherIsQuote(q, choices(n));
          ReadEscaped(body, q', more);
          RescanQuote(q', Escape(body, q') + [q'] + more);
          assert [q'] + (Escape(body, q') + [q'] + more) == ([q'] + Escape(body, q') + [q']) + more;
      }
    }
  }

  lemma {:induction false} EmptyRecovers(choices: Choices, n: nat)
    ensures Recovers([], choices, n)
  {
  }

  lemma {:induction false} OtherIsQuote(q: char, second: bool)
    requires IsQuote(q)
    ensures IsQuote(OtherQuote(q, second)) && OtherQuote(q, second) != q
  {
  }

  /** What a successful recovery says about the first token, and about the rest. */
  lemma {:induction false} RecoversStep(ts: seq<Token>, choices: Choices, n: nat)
    requires WellFormed(ts) && ts != [] && Recovers(ts, choices, n)
    ensures
      var n' := if ts[0].Literal? then n + 1 else n;
      && Recovers(ts[1..], choices, n')
      && (ts[0].Literal? ==> Clean(ts[0].body, OtherQuote(ts[0].q, choices(n))))
      && (ts[0].Stray? ==> ReadBody(Render(ts[1..], choices, n'), ts[0].q).None?)
  {
    hide Clean, OtherQuote, Render, Swapped, Rescan, ReadBody, Escape, IsQuote;
    var n' := if ts[0].Literal? then n + 1 else n;
    RenderCons(ts, choices, n);
    var more, tail := Render(ts[1..], choices, n'), Swapped(ts[1..], choices, n');
    match ts[0] {
      case Plain(c) =>
        RescanPlain(c, more);
        SameTail(Plain(c), Rescan(more), Plain(c), tail);
      case Stray(q) =>
        RescanQuote(q, more);
        var r := ReadBody(more, q);
        if r.None? {
          SameTail(Stray(q), Rescan(more), Stray(q), tail);
        } else {
          SameTail(Literal(q, r.value.0), Rescan(r.value.1), Stray(q), tail);
        }
      case Literal(q, body) =>
        OtherIsQuote(q, choices(n));
        LiteralStep(body, OtherQuote(q, choices(n)), more, tail);
    }
  }

  lemma {:induction false} SameTail(x: Token, xs: seq<Token>, y: Token, ys: seq<Token>)
    requires [x] + xs == [y] + ys
    ensures x == y && xs == ys
  {
    assert ([x] + xs)[0] == ([y] + ys)[0];
    assert ([x] + xs)[1..] == xs && ([y] + ys)[1..] == ys;
  }

  lemma {:induction false} LiteralStep(body: string, q: char, more: string, tail: seq<Token>)
    requires IsQuote(q) && Rescan(([q] + Escape(body, q) + [q]) + more) == [Literal(q, body)] + tail
    ensures Clean(body, q) && Rescan(more) == tail
  {
    hide Clean, Rescan, ReadBody, Escape, IsQuote;
    var text := Escape(body, q) + [q] + more;
    assert ([q] + Escape(body, q) + [q]) + more == [q] + text;
    RescanQuote(q, text);
    var r := ReadBody(text, q);
    if r.None? {
      SameTail(Stray(q), Rescan(text), Literal(q, body), tail);
    } else {
      SameTail(Literal(q, r.value.0), Rescan(r.value.1), Literal(q, body), tail);
      if !Clean(body, q) {
        ReadUnclean(body, q, more);
      } else {
        ReadEscaped(body, q, more);
      }
    }
  }

  lemma {:induction false} RecoversSuffix(ts: seq<Token>, choices: Choices, n: nat, i: nat) returns (m: nat)
    requires WellFormed(ts) && i <= |ts| && Recovers(ts, choices, n)
    ensures Recovers(ts[i..], choices, m)
    decreases i
  {
    if i == 0 {
      assert ts[0..] == ts;
      m := n;
    } else {
      RecoversStep(ts, choices, n);
      m := RecoversSuffix(ts[1..], choices, if ts[0].Literal? then n + 1 else n, i - 1);
      assert ts[1..][i - 1..] == ts[i..];
    }
  }

  /** A stray quote is no longer stray once a later literal is given that quote. */
  lemma {:induction false} CapturedByLiteral(p: string, body: string, q: char, rest: string)
    requires IsQuote(q) && q !in p && Clean(body, q)
    ensures ReadBody(p + ([q] + Escape(body, q) + [q]) + rest, q).Some?
    decreases |p|
  {
    hide Clean, Escape;
    var literal := [q] + Escape(body, q) + [q];
    var text := p + literal + rest;
    if p == "" {
      assert text[0] == q;
    } else if p[0] != BACKSLASH {
      CapturedByLiteral(p[1..], body, q, rest);
      assert text[1..] == p[1..] + literal + rest;
    } else if |p| > 1 {
      CapturedByLiteral(p[2..], body, q, rest);
      assert text[2..] == p[2..] + literal + rest;
    } else {
      ReadEscaped(body, q, rest);
      assert text[2..] == Escape(body, q) + [q] + rest;
    }
  }

  lemma {:induction false} StrayCaptured(ts: seq<Token>, choices: Choices, n: nat, q: char, j: nat)
    requires WellFormed(ts) && IsQuote(q) && j < |ts| && ts[j].Literal?
    requires forall i :: 0 <= i < j ==> !ts[i].Literal? && Mark(ts[i]) != q
    requires Clean(ts[j].body, q) && forall k :: OtherQuote(ts[j].q, choices(k)) == q
    ensures exists p, rest :: q !in p && Render(ts, choices, n) == p + ([q] + Escape(ts[j].body, q) + [q]) + rest
    decreases j
  {
    hide Clean, OtherQuote, Escape, Render;
    RenderCons(ts, choices, n);
    var text := Render(ts, choices, n);
    if j == 0 {
      var rest := Render(ts[1..], choices, n + 1);
      assert text == "" + ([q] + Escape(ts[0].body, q) + [q]) + rest;
    } else {
      StrayCaptured(ts[1..], choices, n, q, j - 1);
      var p, rest :| q !in p && Render(ts[1..], choices, n) == p + ([q] + Escape(ts[j].body, q) + [q]) + rest;
      var c := Write(ts[0], choices(n));
      assert text == (c + p) + ([q] + Escape(ts[j].body, q) + [q]) + rest;
      assert q !in c + p;
    }
  }

  lemma {:induction false} SomeChoiceGives(d: char, q: char) returns (second: bool)
    requires IsQuote(d) && IsQuote(q) && d != q
    ensures OtherQuote(d, second) == q
  {
    second := OtherQuote(d, true) == q;
  }

  /** For every random choice the mutated text is read back with the same text and bodies, if and only if
      every literal is clean for both other quotes and no literal follows a stray quote. */
  lemma {:induction false} RecoversForAllChoicesIff(text: string)
    ensures WellFormed(Scan(text))
    ensures (forall choices: Choices :: Recovers(Scan(text), choices, 0))
            <==> CleanLiterals(Scan(text)) && StraysLast(Scan(text))
  {
    ScanShape(text);
    var ts := Scan(text);
    hide Clean, OtherQuote, Recovers, Scan;
    if CleanLiterals(ts) && StraysLast(ts) {
      forall choices: Choices ensures Recovers(ts, choices, 0) {
        CleanRecovers(ts, choices, 0);
      }
    }
    if forall choices: Choices :: Recovers(ts, choices, 0) {
      forall i, second | 0 <= i < |ts| && ts[i].Literal?
        ensures Clean(ts[i].body, OtherQuote(ts[i].q, second))
      {
        var choices: Choices := (_: nat) => second;
        assert Recovers(ts, choices, 0);
        var m := RecoversSuffix(ts, choices, 0, i);
        RecoversStep(ts[i..], choices, m);
      }
      assert CleanLiterals(ts);
      forall i, j | 0 <= i < j < |ts| && ts[i].Stray?
        ensures !ts[j].Literal?
      {
        if ts[j].Literal? {
          StrayBeforeLiteral(ts, i, j);
        }
      }
    }
  }

  /** A literal after a stray quote spoils some choice. */
  lemma {:induction false} StrayBeforeLiteral(ts: seq<Token>, i: nat, last: nat)
    requires WellFormed(ts) && Unpartnered(ts) && CleanLiterals(ts)
    requires i < last < |ts| && ts[i].Stray? && ts[last].Literal?
    ensures exists choices: Choices :: !Recovers(ts, choices, 0)
  {
    hide Clean, OtherQuote, Recovers;
    var q := ts[i].q;
    var j := i + 1;
    while !ts[j].Literal?
      invariant i < j <= last
      invariant forall k :: i < k < j ==> !ts[k].Literal?
      decreases last - j
    {
      j := j + 1;
    }
    var second := SomeChoiceGives(ts[j].q, q);
    var choices: Choices := (_: nat) => second;
    if Recovers(ts, choices, 0) {
      var m := RecoversSuffix(ts, choices, 0, i);
      RecoversStep(ts[i..], choices, m);
      var rest := ts[i + 1..];
      assert ts[i..][1..] == rest;
      StrayCaptured(rest, choices, m, q, j - i - 1);
      var p, more :| q !in p && Render(rest, choices, m) == p + ([q] + Escape(ts[j].body, q) + [q]) + more;
      CapturedByLiteral(p, ts[j].body, q, more);
      assert false;
    }
  }

  lemma {:induction false} BackslashFreeIsClean(body: string, q: char)
    requires BACKSLASH !in body
    ensures Clean(body, q)
    decreases |body|
  {
    if body != "" {
      BackslashFreeIsClean(body[1..], q);
    }
  }

  /** In particular on every text without backslashes and unmatched quotes. */
  lemma {:induction false} PlainTextsRecover(text: string, choices: Choices)
    requires '\\' !in text && forall i :: 0 <= i < |Scan(text)| ==> !Scan(text)[i].Stray?
    ensures WellFormed(Scan(text)) && Recovers(Scan(text), choices, 0)
  {
    ScanShape(text);
    var ts := Scan(text);
    hide Clean, OtherQuote, Recovers, Scan;
    forall i, second | 0 <= i < |ts| && ts[i].Literal?
      ensures Clean(ts[i].body, OtherQuote(ts[i].q, second))
    {
      BackslashFreeIsClean(ts[i].body, OtherQuote(ts[i].q, second));
    }
    CleanRecovers(ts, choices, 0);
  }

  // ---------------------------------------------------------------- the mutator

  method MutateQuoteSwap(text: string, choices: Choices) returns (r: Option<string>)
    ensures WellFormed(Scan(text))
    ensures r.None? <==> forall i :: 0 <= i < |Scan(text)| ==> !Scan(text)[i].Literal?
    ensures r.Some? ==> r.value == Render(Scan(text), choices, 0)
  {
    ScanShape(text);
    hide Scan, Render, Escape, OtherQuote, Find, FirstToken, Write;
    ghost var ts := Scan(text);
    var changed := false;
    var out := "";
    var i := 0;
    var n := 0;
    ghost var k := 0;
    assert text[0..] == text && ts[0..] == ts;
    while i < |text|
      invariant 0 <= i <= |text| && 0 <= k <= |ts| && Scan(text[i..]) == ts[k..]
      invariant out + Render(ts[k..], choices, n) == Render(ts, choices, 0)
      invariant changed <==> exists j :: 0 <= j < k && ts[j].Literal?
      decreases |text| - i
    {
      ScanCons(text[i..]);
      FirstTokenShape(text[i..]);
      assert ts[k] == FirstToken(text[i..]).0 && ts[k + 1..] == ts[k..][1..] == Scan(FirstToken(text[i..]).1);
      RenderCons(ts[k..], choices, n);
      var piece, next, isLiteral := MutateToken(text, i, choices(n));
      out := out + piece;
      i := next;
      if isLiteral {
        n := n + 1;
        changed := true;
      }
      k := k + 1;
    }
    assert text[|text|..] == "";
    assert k == |ts| by { EmptyScan(); }
    EmptyRender(choices, n);
    assert ts[k..] == [];
    r := if !changed then None else Some(out);
  }

  /** One round of the loop: what is written for the token at `i`, and where the next one starts. */
  method MutateToken(text: string, i: nat, second: bool) returns (piece: string, next: nat, isLiteral: bool)
    requires i < |text|
    ensures i < next <= |text| && text[next..] == FirstToken(text[i..]).1
    ensures WellFormedToken(FirstToken(text[i..]).0)
    ensures piece == Write(FirstToken(text[i..]).0, second) && isLiteral == FirstToken(text[i..]).0.Literal?
  {
    assert text[i..][1..] == text[i + 1..];
    if IsQuote(text[i]) {
      var quote := text[i];
      var end := Find(text[i + 1..], quote);
      if end.None? {
        return [text[i]], i + 1, false;
      }
      var newQuote := OtherQuote(quote, second);
      var segment := text[i + 1..][..end.value];
      assert text[i + 1..][end.value + 1..] == text[i + 1 + end.value + 1..];
      return [newQuote] + Escape(segment, newQuote) + [newQuote], i + 1 + end.value + 1, true;
    }
    return [text[i]], i + 1, false;
  }

  lemma {:induction false} EmptyScan()
    ensures Scan("") == []
  {
  }

  lemma {:induction false} EmptyRender(choices: Choices, n: nat)
    ensures Render([], choices, n) == ""
  {
  }
}
