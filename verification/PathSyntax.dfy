/** The path language of value_path and value_build_path in data/value.c: how a byte string splits into
    components, and what each component asks for. */
module PathSyntax {
  import opened Keys

  const SLASH: Byte := 47
  const OPEN: Byte := 91
  const CLOSE: Byte := 93
  const MINUS: Byte := 45
  const PLUS: Byte := 43
  const ZERO: Byte := 48
  const NINE: Byte := 57

  /** Where a size_t wraps around. */
  const SIZE_LIMIT: nat := 0x1_0000_0000_0000_0000

  datatype Token =
    | Name(key: Key)
    | Index(index: nat)
    | FromEnd(index: nat)
    | Append
    | Malformed

  /** A C string ends at its first zero byte. */
  function CharAt(path: Key, i: nat): Byte
    requires i <= |path|
  {
    if i < |path| then path[i] else 0
  }

  function Skipped(path: Key, i: nat): (j: nat)
    requires i <= |path|
    ensures i <= j <= |path| && CharAt(path, j) != SLASH
    decreases |path| - i
  {
    if CharAt(path, i) == SLASH then Skipped(path, i + 1) else i
  }

  predicate Stops(b: Byte) {
    b == 0 || b == SLASH || b == OPEN
  }

  function Scanned(path: Key, i: nat): (j: nat)
    requires i <= |path|
    ensures i <= j <= |path| && Stops(CharAt(path, j))
    decreases |path| - i
  {
    if Stops(CharAt(path, i)) then i else Scanned(path, i + 1)
  }

  /** The end of the component that starts at i: an opening bracket belongs to it only as its first byte. */
  function TokenEnd(path: Key, i: nat): (j: nat)
    requires i < |path| && path[i] != 0 && path[i] != SLASH
    ensures i < j <= |path|
  {
    Scanned(path, if path[i] == OPEN then i + 1 else i)
  }

  predicate IsDigit(b: Byte) {
    ZERO <= b <= NINE
  }

  predicate AllDigits(s: Key) {
    forall i :: 0 <= i < |s| ==> IsDigit(s[i])
  }

  function DigitRun(s: Key): (n: nat)
    ensures n <= |s| && (n < |s| ==> !IsDigit(s[n]))
    ensures AllDigits(s[..n])
  {
    if s == [] || !IsDigit(s[0]) then 0 else 1 + DigitRun(s[1..])
  }

  /** The number that decimal digits denote, as size_t arithmetic computes it. */
  function Number(digits: Key): nat
    requires AllDigits(digits)
  {
    if digits == [] then 0
    else (Number(digits[..|digits| - 1]) * 10 + (digits[|digits| - 1] - ZERO)) % SIZE_LIMIT
  }

  /** What stands between the brackets, the closing one included. */
  function Bracketed(inner: Key): Token
    requires inner != [] && inner[|inner| - 1] == CLOSE
  {
    var signed := inner[0] == MINUS || inner[0] == PLUS;
    var rest := if signed then inner[1..] else inner;
    var n := DigitRun(rest);
    if n == |rest| || rest[n] != CLOSE then Malformed
    else if inner[0] == MINUS then FromEnd(Number(rest[..n]))
    else if inner == [CLOSE] then Append
    else Index(Number(rest[..n]))
  }

  predicate HasBrackets(text: Key) {
    |text| >= 2 && text[0] == OPEN && text[|text| - 1] == CLOSE
  }

  function Classify(text: Key): Token
    requires text != []
  {
    if HasBrackets(text) then Bracketed(text[1..]) else Name(text)
  }

  function TokensFrom(path: Key, i: nat): seq<Token>
    requires i <= |path|
    decreases |path| - i
  {
    var j := Skipped(path, i);
    if CharAt(path, j) == 0 then []
    else
      var e := TokenEnd(path, j);
      [Classify(path[j..e])] + TokensFrom(path, e)
  }

  function Tokens(path: Key): seq<Token> {
    TokensFrom(path, 0)
  }

  // ---------- writing paths ----------

  function Decimal(n: nat): (digits: Key)
    ensures digits != [] && AllDigits(digits)
  {
    if n < 10 then [ZERO + n] else Decimal(n / 10) + [ZERO + n % 10]
  }

  function Show(token: Token): Key {
    match token
    case Name(key) => [SLASH] + key
    case Index(i) => [OPEN] + Decimal(i) + [CLOSE]
    case FromEnd(i) => [OPEN, MINUS] + Decimal(i) + [CLOSE]
    case Append => [OPEN, CLOSE]
    case Malformed => [OPEN, CLOSE]
  }

  /** The components that have a spelling of their own. */
  ghost predicate Spelled(token: Token) {
    match token
    case Name(key) => key != [] && forall i :: 0 <= i < |key| ==> !Stops(key[i])
    case Index(i) => i < SIZE_LIMIT
    case FromEnd(i) => i < SIZE_LIMIT
    case Append => true
    case Malformed => false
  }

  function Render(tokens: seq<Token>): Key {
    if tokens == [] then [] else Show(tokens[0]) + Render(tokens[1..])
  }

  lemma {:induction false} DecimalNumber(n: nat)
    requires n < SIZE_LIMIT
    ensures Number(Decimal(n)) == n
  {
    if n >= 10 {
      DecimalNumber(n / 10);
      assert Decimal(n)[..|Decimal(n)| - 1] == Decimal(n / 10);
    }
  }

  lemma {:induction false} DigitRunEnds(digits: Key, rest: Key)
    requires AllDigits(digits)
    requires rest != [] && !IsDigit(rest[0])
    ensures DigitRun(digits + rest) == |digits|
  {
    if digits == [] {
      assert digits + rest == rest;
    } else {
      DigitRunEnds(digits[1..], rest);
      assert (digits + rest)[1..] == digits[1..] + rest;
    }
  }

  /** The text of a component: what Show writes, without the separator. */
  function Text(token: Token): Key {
    if token.Name? then token.key else Show(token)
  }

  lemma IndexClassified(n: nat)
    requires n < SIZE_LIMIT
    ensures Bracketed(Decimal(n) + [CLOSE]) == Index(n)
    ensures Bracketed([MINUS] + (Decimal(n) + [CLOSE])) == FromEnd(n)
  {
    hide Decimal, Number, DigitRun;
    var inner := Decimal(n) + [CLOSE];
    DecimalNumber(n);
    DigitRunEnds(Decimal(n), [CLOSE]);
    assert inner[..|Decimal(n)|] == Decimal(n);
    assert ([MINUS] + inner)[1..] == inner;
    assert IsDigit(inner[0]);
  }

  lemma TextClassified(token: Token)
    requires Spelled(token)
    ensures Text(token) != [] && Classify(Text(token)) == token
    ensures forall i :: 0 < i < |Text(token)| ==> !Stops(Text(token)[i])
    ensures Text(token)[0] != 0 && Text(token)[0] != SLASH
  {
    hide Decimal, Number, DigitRun, Bracketed;
    match token
    case Name(key) =>
    case Index(n) =>
      IndexClassified(n);
      assert Text(token)[1..] == Decimal(n) + [CLOSE];
    case FromEnd(n) =>
      IndexClassified(n);
      assert Text(token)[1..] == [MINUS] + (Decimal(n) + [CLOSE]);
    case Append =>
      assert Text(token)[1..] == [CLOSE];
      AppendClassified();
  }

  lemma AppendClassified()
    ensures Bracketed([CLOSE]) == Append
  {
  }

  lemma {:induction false} ScannedTo(path: Key, i: nat, e: nat)
    requires i <= e <= |path| && Stops(CharAt(path, e))
    requires forall k :: i <= k < e ==> !Stops(path[k])
    ensures Scanned(path, i) == e
    decreases e - i
  {
    if i < e {
      ScannedTo(path, i + 1, e);
    }
  }

  lemma TokenAt(path: Key, i: nat, j: nat, e: nat)
    requires i <= j < e <= |path| && j <= i + 1 && (j == i + 1 ==> path[i] == SLASH)
    requires path[j] != 0 && path[j] != SLASH && Stops(CharAt(path, e))
    requires forall k :: j < k < e ==> !Stops(path[k])
    ensures TokensFrom(path, i) == [Classify(path[j..e])] + TokensFrom(path, e)
  {
    hide Classify, Scanned;
    assert Skipped(path, i) == j;
    ScannedTo(path, if path[j] == OPEN then j + 1 else j, e);
  }

  /** Reading what Show wrote, wherever it stands. */
  lemma ShownToken(path: Key, i: nat, token: Token, rest: Key)
    requires Spelled(token) && i <= |path| && path[i..] == Show(token) + rest
    requires rest == [] || Stops(rest[0])
    ensures i + |Show(token)| <= |path| && path[i + |Show(token)|..] == rest
    ensures TokensFrom(path, i) == [token] + TokensFrom(path, i + |Show(token)|)
  {
    hide Classify, TokensFrom, Stops, Spelled, Text;
    TextClassified(token);
    ShownAt(path, i, token, rest);
    StopsAtEnd();
    var j := if token.Name? then i + 1 else i;
    var e := j + |Text(token)|;
    forall k | j < k < e
      ensures !Stops(path[k])
    {
      assert path[k] == path[j..e][k - j];
    }
    assert path[j] == path[j..e][0];
    TokenAt(path, i, j, e);
  }

  lemma ShownAt(path: Key, i: nat, token: Token, rest: Key)
    requires i <= |path| && path[i..] == Show(token) + rest
    ensures
      var j := if token.Name? then i + 1 else i;
      var e := j + |Text(token)|;
      && e == i + |Show(token)| <= |path| && path[j..e] == Text(token) && path[e..] == rest
      && (rest != [] ==> path[e] == rest[0]) && (token.Name? ==> path[i] == SLASH)
  {
    hide Decimal;
    Piece(path, i, Show(token), rest);
    var e := i + |Show(token)|;
    if token.Name? {
      assert path[i] == path[i..e][0];
      assert path[i + 1..e] == path[i..e][1..];
    }
  }

  lemma Piece(path: Key, i: nat, piece: Key, rest: Key)
    requires i <= |path| && path[i..] == piece + rest
    ensures i + |piece| <= |path| && path[i + |piece|..] == rest && path[i..i + |piece|] == piece
    ensures rest != [] ==> path[i + |piece|] == rest[0]
  {
    assert path[i..][|piece|..] == rest && path[i..][..|piece|] == piece;
  }

  lemma StopsAtEnd()
    ensures Stops(0)
  {
  }

  lemma RenderStarts(tokens: seq<Token>)
    ensures Render(tokens) == [] || Stops(Render(tokens)[0])
  {
    if tokens != [] {
      assert Render(tokens)[0] == Show(tokens[0])[0];
    }
  }

  lemma {:induction false} RenderedFrom(path: Key, i: nat, tokens: seq<Token>)
    requires forall t :: t in tokens ==> Spelled(t)
    requires i <= |path| && path[i..] == Render(tokens)
    ensures TokensFrom(path, i) == tokens
    decreases |tokens|
  {
    hide Show, Spelled, Stops;
    if tokens != [] {
      RenderStarts(tokens[1..]);
      ShownToken(path, i, tokens[0], Render(tokens[1..]));
      RenderedFrom(path, i + |Show(tokens[0])|, tokens[1..]);
    } else {
      assert i == |path|;
    }
  }

  /** Every list of spellable components has a path that means exactly it. */
  lemma RenderParses(tokens: seq<Token>)
    requires forall t :: t in tokens ==> Spelled(t)
    ensures Tokens(Render(tokens)) == tokens
  {
    RenderedFrom(Render(tokens), 0, tokens);
  }
}
