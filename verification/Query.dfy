/** Query strings (Sylar/HttpServer/http.cc). */
module Query {
  import opened Prelude
  import opened Url

  function Lower(b: byte): byte {
    if IsUpper(b) then b + 32 else b
  }

  /** What `strcasecmp` sees of a key: it ignores case, and ends at a zero byte. */
  function Fold(key: seq<byte>): seq<byte> {
    if key == [] || key[0] == 0 then [] else [Lower(key[0])] + Fold(key[1..])
  }

  /** Where a key ends for C: at the first zero byte. */
  function CLength(key: seq<byte>): (n: nat)
    ensures n <= |key| && (n < |key| ==> key[n] == 0)
    ensures forall i :: 0 <= i < n ==> key[i] != 0
  {
    if key == [] || key[0] == 0 then 0 else 1 + CLength(key[1..])
  }

  /** The same character, up to the case of a letter. */
  predicate SameLetter(a: byte, b: byte) {
    || a == b
    || ('A' as int <= a <= 'Z' as int && b == a + 32)
    || ('A' as int <= b <= 'Z' as int && a == b + 32)
  }

  /** Two keys are one to the map exactly if, up to their first zero bytes, they are as long as
      each other and differ in nothing but case. */
  lemma {:induction false} FoldAlikeExactly(a: seq<byte>, b: seq<byte>)
    ensures Fold(a) == Fold(b) <==>
      CLength(a) == CLength(b) && forall i :: 0 <= i < CLength(a) && i < CLength(b) ==> SameLetter(a[i], b[i])
  {
    FoldIs(a);
    FoldIs(b);
    assert forall x, y :: Lower(x) == Lower(y) <==> SameLetter(x, y);
    if Fold(a) == Fold(b) {
      forall i | 0 <= i < CLength(a)
        ensures SameLetter(a[i], b[i])
      {
        assert Lower(a[i]) == Fold(a)[i] == Fold(b)[i] == Lower(b[i]);
      }
    }
  }

  lemma {:induction false} FoldIs(key: seq<byte>)
    ensures |Fold(key)| == CLength(key)
    ensures forall i :: 0 <= i < |Fold(key)| ==> Fold(key)[i] == Lower(key[i])
  {
    if key != [] && key[0] != 0 {
      FoldIs(key[1..]);
    }
  }

  datatype Param = Param(key: seq<byte>, value: seq<byte>)

  /** A map ordered by `CaseInsensitiveLess`. */
  type Params = map<seq<byte>, Param>

  /** `insert` leaves an entry that is there. */
  function Insert(m: Params, p: Param): Params {
    if Fold(p.key) in m then m else m[Fold(p.key) := p]
  }

  // ---------------------------------------------------------------- parsing

  /** The first position of a character from `pos` on, if it occurs: `std::string::find`. */
  function Find(s: seq<byte>, c: byte, pos: nat): (r: Option<nat>)
    ensures r.Some? ==> pos <= r.value < |s| && s[r.value] == c
    decreases |s| - pos
  {
    if pos >= |s| then None else if s[pos] == c then Some(pos) else Find(s, c, pos + 1)
  }

  type Decoder = seq<byte> -> seq<byte>

  /** The decoder that the parser applies to values. */
  function Unescape(s: seq<byte>): seq<byte> {
    Decode(s, true)
  }

  /** What one turn of the parse loop comes to: it is the last one, or goes on at `next`. */
  datatype Turn = Last(m: Params) | More(m: Params, next: nat)

  function OneTurn(s: seq<byte>, pos: nat, m: Params, decode: Decoder): (t: Turn)
    ensures t.More? ==> pos < t.next <= |s|
  {
    match Find(s, EQUALS, pos)
    case None => Last(m)
    case Some(key) =>
      match Find(s, AMPERSAND, key)
      case None => Last(Insert(m, Param(s[pos..key], decode(s[key + 1..]))))
      case Some(end) => More(Insert(m, Param(s[pos..key], decode(s[key + 1..end]))), end + 1)
  }

  /** What the parse loop makes of a query from `pos` on. */
  function Parse(s: seq<byte>, pos: nat, m: Params, decode: Decoder): Params
    decreases |s| - pos
  {
    match OneTurn(s, pos, m, decode)
    case Last(m') => m'
    case More(m', next) => Parse(s, next, m', decode)
  }

  method FindFrom(s: seq<byte>, c: byte, pos: nat) returns (r: Option<nat>)
    ensures r == Find(s, c, pos)
  {
    var i := pos;
    while i < |s| && s[i] != c
      invariant pos <= i && Find(s, c, i) == Find(s, c, pos)
    {
      i := i + 1;
    }
    r := if i < |s| then Some(i) else None;
  }

  /** `PARSE_PARAM`. */
  method ParseParams(str: seq<byte>) returns (m: Params)
    ensures m == Parse(str, 0, map[], Unescape)
  {
    ghost var all := Parse(str, 0, map[], Unescape);
    m := map[];
    var pos, more := 0, true;
    while more
      invariant if more then Parse(str, pos, m, Unescape) == all else m == all
      decreases more, |str| - pos
    {
      ghost var turn := OneTurn(str, pos, m, Unescape);
      ParseTurn(str, pos, m, Unescape, turn);
      m, pos, more := ParseOne(str, pos, m, turn);
    }
  }

  lemma {:induction false} ParseTurn(s: seq<byte>, pos: nat, m: Params, decode: Decoder, t: Turn)
    requires t == OneTurn(s, pos, m, decode)
    ensures Parse(s, pos, m, decode) == if t.Last? then t.m else Parse(s, t.next, t.m, decode)
  {
  }

  /** One turn of that loop. */
  method ParseOne(str: seq<byte>, last: nat, given: Params, ghost turn: Turn)
    returns (m: Params, pos: nat, more: bool)
    requires turn == OneTurn(str, last, given, Unescape)
    ensures m == turn.m && more == turn.More? && (more ==> pos == turn.next)
  {
    var equals := FindFrom(str, EQUALS, last);
    if equals.None? {
      return given, last, false;
    }
    var key := equals.value;
    var amp := FindFrom(str, AMPERSAND, key);
    var end := if amp.Some? then amp.value else |str|;
    assert amp.None? ==> str[key + 1..end] == str[key + 1..];
    var value := UrlDecode(str[key + 1..end], true);
    m := Insert(given, Param(str[last..key], value));
    pos, more := end + 1, amp.Some?;
  }

  // ---------------------------------------------------------------- round trip

  predicate Plain(key: seq<byte>) {
    EQUALS !in key && AMPERSAND !in key
  }

  function Assign(p: Param, plus: bool): seq<byte> {
    p.key + ([EQUALS] + Encode(p.value, plus))
  }

  /** `k1=v1&k2=v2&...` with encoded values. */
  function Joined(ps: seq<Param>, plus: bool): seq<byte> {
    if ps == [] then []
    else if |ps| == 1 then Assign(ps[0], plus)
    else Assign(ps[0], plus) + ([AMPERSAND] + Joined(ps[1..], plus))
  }

  function InsertAll(ps: seq<Param>, m: Params): Params
    decreases |ps|
  {
    if ps == [] then m else InsertAll(ps[1..], Insert(m, ps[0]))
  }

  lemma {:induction false} EncodedHasNoSeparator(s: seq<byte>, plus: bool)
    ensures AMPERSAND !in Encode(s, plus)
  {
    if s != [] {
      EncodedHasNoSeparator(s[1..], plus);
      assert AMPERSAND !in EncodeByte(s[0], plus);
    }
  }

  lemma {:induction false} FindFirst(s: seq<byte>, c: byte, pos: nat, i: nat)
    requires pos <= i <= |s| && c !in s[pos..i]
    ensures Find(s, c, pos) == Find(s, c, i)
    decreases i - pos
  {
    if pos < i {
      assert s[pos..i] == [s[pos]] + s[pos + 1..i];
      FindFirst(s, c, pos + 1, i);
    }
  }

  lemma Segment(s: seq<byte>, pos: nat, a: seq<byte>, b: seq<byte>)
    requires pos <= |s| && s[pos..] == a + b
    ensures pos + |a| + |b| == |s| && s[pos..pos + |a|] == a && s[pos + |a|..] == b
  {
    assert s[pos..][..|a|] == a && s[pos..][|a|..] == b;
  }

  lemma Tail(s: seq<byte>, pos: nat, a: seq<byte>)
    requires pos <= |s| && s[pos..] == a && a != []
    ensures pos < |s| && s[pos] == a[0] && s[pos + 1..] == a[1..]
  {
    assert s[pos..][0] == s[pos] && s[pos..][1..] == s[pos + 1..];
  }

  /** Where the sign after a piece of text is found, if it is not in the text. */
  lemma LocatedNext(s: seq<byte>, pos: nat, text: seq<byte>, c: byte, rest: seq<byte>)
    requires c !in text && (rest == [] || rest[0] == c)
    requires pos <= |s| && s[pos..] == text + rest
    ensures pos + |text| + |rest| == |s| && s[pos..pos + |text|] == text && s[pos + |text|..] == rest
    ensures Find(s, c, pos) == if rest == [] then None else Some(pos + |text|)
  {
    Segment(s, pos, text, rest);
    FindFirst(s, c, pos, pos + |text|);
    if rest != [] {
      Tail(s, pos + |text|, rest);
    }
  }

  /** Where the two signs of an assignment are found. */
  lemma Located(s: seq<byte>, pos: nat, key: seq<byte>, code: seq<byte>, rest: seq<byte>)
    requires EQUALS !in key && AMPERSAND !in code && (rest == [] || rest[0] == AMPERSAND)
    requires pos <= |s| && s[pos..] == (key + ([EQUALS] + code)) + rest
    ensures var at, end := pos + |key|, |s| - |rest|;
      && at < end && Find(s, EQUALS, pos) == Some(at)
      && Find(s, AMPERSAND, at) == (if rest == [] then None else Some(end))
      && s[pos..at] == key && s[at + 1..end] == code && s[end..] == rest
  {
    var at, sign := pos + |key|, [EQUALS] + code;
    Regroup(key, sign, rest);
    LocatedNext(s, pos, key, EQUALS, sign + rest);
    LocatedNext(s, at, sign, AMPERSAND, rest);
    assert s[at..|s| - |rest|][1..] == s[at + 1..|s| - |rest|];
  }

  /** An assignment is next, and `rest` after it. */
  lemma ParseAssign(
      s: seq<byte>, pos: nat, p: Param, code: seq<byte>, rest: seq<byte>, m: Params, decode: Decoder)
    requires EQUALS !in p.key && AMPERSAND !in code && (rest == [] || rest[0] == AMPERSAND)
    requires pos <= |s| && s[pos..] == (p.key + ([EQUALS] + code)) + rest
    requires p.value == decode(code)
    ensures |rest| <= |s|
    ensures OneTurn(s, pos, m, decode) ==
      if rest == [] then Last(Insert(m, p)) else More(Insert(m, p), |s| - |rest| + 1)
    ensures rest != [] ==> s[|s| - |rest| + 1..] == rest[1..]
  {
    Located(s, pos, p.key, code, rest);
    var at, end := pos + |p.key|, |s| - |rest|;
    assert rest == [] ==> s[at + 1..] == code;
    assert rest != [] ==> s[end..][1..] == s[end + 1..];
  }

  /** Without an equals sign there is nothing more. */
  lemma {:induction false} ParseNothing(s: seq<byte>, pos: nat, m: Params, decode: Decoder)
    requires forall i :: pos <= i < |s| ==> s[i] != EQUALS
    ensures Parse(s, pos, m, decode) == m
  {
    ParseTurn(s, pos, m, decode, OneTurn(s, pos, m, decode));
  }

  /** What is there up to an equals sign is a key, ampersands and all, and from there to the next
      ampersand its value. */
  lemma ParseNext(
      s: seq<byte>, pos: nat, p: Param, code: seq<byte>, rest: seq<byte>, m: Params, m': Params, decode: Decoder)
    requires EQUALS !in p.key && AMPERSAND !in code && (rest == [] || rest[0] == AMPERSAND)
    requires pos <= |s| && s[pos..] == (p.key + ([EQUALS] + code)) + rest
    requires p.value == decode(code) && m' == Insert(m, p)
    ensures |rest| <= |s|
    ensures Parse(s, pos, m, decode) == if rest == [] then m' else Parse(s, |s| - |rest| + 1, m', decode)
    ensures rest != [] ==> s[|s| - |rest| + 1..] == rest[1..]
  {
    ParseAssign(s, pos, p, code, rest, m, decode);
    ParseTurn(s, pos, m, decode, OneTurn(s, pos, m, decode));
  }

  /** What the parser makes of the first of several assignments, and where it then goes on. */
  lemma ParseFirst(s: seq<byte>, pos: nat, ps: seq<Param>, plus: bool, m: Params, decode: Decoder) returns (next: nat)
    requires ps != [] && Plain(ps[0].key) && pos <= |s| && s[pos..] == Joined(ps, plus)
    requires decode(Encode(ps[0].value, plus)) == ps[0].value
    ensures |ps| == 1 ==> Parse(s, pos, m, decode) == Insert(m, ps[0])
    ensures |ps| > 1 ==>
      && next <= |s| && s[next..] == Joined(ps[1..], plus)
      && Parse(s, pos, m, decode) == Parse(s, next, Insert(m, ps[0]), decode)
  {
    var rest := AfterFirst(ps, plus);
    EncodedHasNoSeparator(ps[0].value, plus);
    JoinedSplits(ps, plus);
    ParseNext(s, pos, ps[0], Encode(ps[0].value, plus), rest, m, Insert(m, ps[0]), decode);
    next := |s| - |rest| + 1;
  }

  /** Keys can be told from the signs, and their values come back from the decoder. */
  ghost predicate Parsable(ps: seq<Param>, plus: bool, decode: Decoder) {
    forall i :: 0 <= i < |ps| ==> Plain(ps[i].key) && decode(Encode(ps[i].value, plus)) == ps[i].value
  }

  lemma {:induction false} ParsableSplits(ps: seq<Param>, plus: bool, decode: Decoder)
    requires ps != [] && Parsable(ps, plus, decode)
    ensures Plain(ps[0].key) && decode(Encode(ps[0].value, plus)) == ps[0].value
    ensures Parsable(ps[1..], plus, decode)
  {
  }

  /** A query is parsed into what it was made of, the first of several equal keys winning. */
  lemma {:induction false} ParseJoined(
      s: seq<byte>, pos: nat, ps: seq<Param>, plus: bool, m: Params, decode: Decoder, all: Params)
    requires Parsable(ps, plus, decode)
    requires pos <= |s| && s[pos..] == Joined(ps, plus)
    requires all == InsertAll(ps, m)
    ensures Parse(s, pos, m, decode) == all
    decreases |ps|
  {
    if ps != [] {
      ParsableSplits(ps, plus, decode);
      var next := ParseFirst(s, pos, ps, plus, m, decode);
      if |ps| == 1 {
        assert ps[1..] == [];
      } else {
        ParseJoined(s, next, ps[1..], plus, Insert(m, ps[0]), decode, all);
      }
    }
  }

  /** What follows the first assignment. */
  function AfterFirst(ps: seq<Param>, plus: bool): seq<byte>
    requires ps != []
  {
    if |ps| == 1 then [] else [AMPERSAND] + Joined(ps[1..], plus)
  }

  lemma {:induction false} JoinedSplits(ps: seq<Param>, plus: bool)
    requires ps != []
    ensures Joined(ps, plus) == (ps[0].key + ([EQUALS] + Encode(ps[0].value, plus))) + AfterFirst(ps, plus)
    ensures |ps| > 1 ==> AfterFirst(ps, plus)[1..] == Joined(ps[1..], plus)
  {
  }

  lemma {:induction false} InsertedStay(ps: seq<Param>, m: Params, k: seq<byte>)
    ensures k in m ==> k in InsertAll(ps, m) && InsertAll(ps, m)[k] == m[k]
    ensures k in InsertAll(ps, m) ==> k in m || exists i :: 0 <= i < |ps| && Fold(ps[i].key) == k
    decreases |ps|
  {
    if ps != [] {
      InsertedStay(ps[1..], Insert(m, ps[0]), k);
      if k in InsertAll(ps, m) && k !in m && Fold(ps[0].key) != k {
        var i :| 0 <= i < |ps| - 1 && Fold(ps[1..][i].key) == k;
        assert Fold(ps[i + 1].key) == k;
      }
    }
  }

  lemma {:induction false} FirstWinsFrom(ps: seq<Param>, m: Params, i: nat)
    requires i < |ps| && Fold(ps[i].key) !in m && forall j :: 0 <= j < i ==> Fold(ps[j].key) != Fold(ps[i].key)
    ensures Fold(ps[i].key) in InsertAll(ps, m) && InsertAll(ps, m)[Fold(ps[i].key)] == ps[i]
    decreases |ps|
  {
    if i == 0 {
      InsertedStay(ps[1..], Insert(m, ps[0]), Fold(ps[0].key));
    } else {
      assert forall j :: 0 <= j < i - 1 ==> ps[1..][j] == ps[j + 1];
      FirstWinsFrom(ps[1..], Insert(m, ps[0]), i - 1);
    }
  }

  /** Parsing what was joined gives back, for every key, its first value, and no other keys. */
  lemma {:induction false} QueryRoundTrip(ps: seq<Param>, plus: bool, i: nat)
    requires forall j :: 0 <= j < |ps| ==> Plain(ps[j].key)
    requires i < |ps| && forall j :: 0 <= j < i ==> Fold(ps[j].key) != Fold(ps[i].key)
    ensures var m := Parse(Joined(ps, plus), 0, map[], Unescape);
      && Fold(ps[i].key) in m && m[Fold(ps[i].key)] == ps[i]
      && forall k :: k in m ==> exists j :: 0 <= j < |ps| && Fold(ps[j].key) == k
  {
    assert Joined(ps, plus)[0..] == Joined(ps, plus);
    forall j | 0 <= j < |ps|
      ensures Unescape(Encode(ps[j].value, plus)) == ps[j].value
    {
      UrlRoundTripExactly(ps[j].value, plus, true);
    }
    ParseJoined(Joined(ps, plus), 0, ps, plus, map[], Unescape, InsertAll(ps, map[]));
    FirstWinsFrom(ps, map[], i);
    forall k | k in InsertAll(ps, map[])
      ensures exists j :: 0 <= j < |ps| && Fold(ps[j].key) == k
    {
      InsertedStay(ps, map[], k);
    }
  }
}
