/** examples/server/server.c: read_request. One byte stream, delivered by read() in pieces of any size. */
module RequestReader {
  import opened Wrappers
  import opened Bytes

  const MAX_HEADER_BYTES: nat := 16384
  const MAX_BODY_BYTES: nat := 4096
  const MAX_METHOD: nat := 7
  const MAX_PATH: nat := 511
  const MAX_UA: nat := 255

  const BLANK: seq<Byte> := [13, 10, 13, 10]
  const CRLF: seq<Byte> := [13, 10]
  /** "\r\nuser-agent:" and "\r\ncontent-length:", lower case. */
  const USER_AGENT: seq<Byte> := [13, 10, 117, 115, 101, 114, 45, 97, 103, 101, 110, 116, 58]
  const CONTENT_LENGTH: seq<Byte> :=
    [13, 10, 99, 111, 110, 116, 101, 110, 116, 45, 108, 101, 110, 103, 116, 104, 58]

  datatype Request = Request(verb: seq<Byte>, path: seq<Byte>, userAgent: seq<Byte>, body: seq<Byte>)

  /** What the head says; `length` is what strtol makes of Content-Length, 0 without one. */
  datatype Head = Head(verb: seq<Byte>, path: seq<Byte>, userAgent: seq<Byte>, length: int)

  // ---- C string functions ----

  /** The part of a buffer the string functions see. */
  function CString(s: seq<Byte>): (c: seq<Byte>)
    ensures c <= s && 0 !in c
    ensures |c| < |s| ==> s[|c|] == 0
  {
    if s == [] || s[0] == 0 then [] else
      var rest := CString(s[1..]);
      assert s == [s[0]] + s[1..];
      [s[0]] + rest
  }

  function Lower(b: Byte): Byte {
    if 65 <= b <= 90 then b + 32 else b
  }

  predicate MatchAt(s: seq<Byte>, pattern: seq<Byte>, i: nat, fold: bool) {
    && i + |pattern| <= |s|
    && forall k :: 0 <= k < |pattern| ==> (if fold then Lower(s[i + k]) else s[i + k]) == pattern[k]
  }

  /** strstr, and strcasestr with `fold` and a lower-case pattern, from index i. */
  function Find(s: seq<Byte>, pattern: seq<Byte>, i: nat, fold: bool): (r: Option<nat>)
    ensures r.Some? ==> i <= r.value && MatchAt(s, pattern, r.value, fold)
    ensures r.Some? ==> forall j :: i <= j < r.value ==> !MatchAt(s, pattern, j, fold)
    ensures r.None? ==> forall j: nat :: i <= j ==> !MatchAt(s, pattern, j, fold)
    decreases |s| - i
  {
    if i > |s| then None
    else if MatchAt(s, pattern, i, fold) then Some(i)
    else Find(s, pattern, i + 1, fold)
  }

  predicate IsSpace(b: Byte) {
    b == 32 || 9 <= b <= 13
  }

  predicate IsDigit(b: Byte) {
    48 <= b <= 57
  }

  function SkipSpace(s: seq<Byte>, i: nat): (j: nat)
    requires i <= |s|
    ensures i <= j <= |s| && (forall k :: i <= k < j ==> IsSpace(s[k])) && (j < |s| ==> !IsSpace(s[j]))
    decreases |s| - i
  {
    if i < |s| && IsSpace(s[i]) then SkipSpace(s, i + 1) else i
  }

  function SkipBlanks(s: seq<Byte>, i: nat): (j: nat)
    requires i <= |s|
    ensures i <= j <= |s| && (forall k :: i <= k < j ==> s[k] == 32) && (j < |s| ==> s[j] != 32)
    decreases |s| - i
  {
    if i < |s| && s[i] == 32 then SkipBlanks(s, i + 1) else i
  }

  /** The end of a %s token of at most `max` bytes. */
  function TokenEnd(s: seq<Byte>, i: nat, max: nat): (j: nat)
    requires i <= |s|
    ensures i <= j <= |s| && j <= i + max && (forall k :: i <= k < j ==> !IsSpace(s[k]))
    ensures j < |s| && j < i + max ==> IsSpace(s[j])
    decreases max
  {
    if max == 0 || i == |s| || IsSpace(s[i]) then i else TokenEnd(s, i + 1, max - 1)
  }

  function DigitsEnd(s: seq<Byte>, i: nat): (j: nat)
    requires i <= |s|
    ensures i <= j <= |s| && (forall k :: i <= k < j ==> IsDigit(s[k])) && (j < |s| ==> !IsDigit(s[j]))
    decreases |s| - i
  {
    if i < |s| && IsDigit(s[i]) then DigitsEnd(s, i + 1) else i
  }

  function Decimal(digits: seq<Byte>): int {
    if digits == [] then 0 else Decimal(digits[..|digits| - 1]) * 10 + (digits[|digits| - 1] as int - 48)
  }

  /** strtol, base 10, from index i; values beyond a long saturate, which no test below can tell from the exact
      value. */
  function StrToL(s: seq<Byte>, i: nat): int
    requires i <= |s|
  {
    var w := SkipSpace(s, i);
    var signed := w < |s| && (s[w] == 43 || s[w] == 45);
    var from := if signed then w + 1 else w;
    var n := Decimal(s[from..DigitsEnd(s, from)]);
    if signed && s[w] == 45 then -n else n
  }

  // ---- the head ----

  /** Where sscanf starts on the second token. */
  function SecondToken(s: seq<Byte>): (j: nat)
    ensures j <= |s|
  {
    SkipSpace(s, TokenEnd(s, SkipSpace(s, 0), MAX_METHOD))
  }

  /** sscanf("%7s %511s"). */
  function RequestLine(s: seq<Byte>): Option<(seq<Byte>, seq<Byte>)> {
    var i := SkipSpace(s, 0);
    var iEnd := TokenEnd(s, i, MAX_METHOD);
    var j := SecondToken(s);
    var jEnd := TokenEnd(s, j, MAX_PATH);
    if i == iEnd || j == jEnd then None else Some((s[i..iEnd], s[j..jEnd]))
  }

  /** The value of User-Agent, from behind the colon. */
  function AgentValue(s: seq<Byte>, i: nat): seq<Byte>
    requires i <= |s|
  {
    var from := SkipBlanks(s, i);
    var end := Find(s, CRLF, from, false);
    if end.None? then [] else s[from..Min(end.value, from + MAX_UA)]
  }

  function UserAgent(s: seq<Byte>): seq<Byte> {
    var at := Find(s, USER_AGENT, 0, true);
    if at.None? then [] else AgentValue(s, at.value + |USER_AGENT|)
  }

  function ContentLength(s: seq<Byte>): int {
    var at := Find(s, CONTENT_LENGTH, 0, true);
    if at.None? then 0 else StrToL(s, at.value + |CONTENT_LENGTH|)
  }

  function ParseHead(s: seq<Byte>): Option<Head> {
    var line :- RequestLine(s);
    Some(Head(line.0, line.1, UserAgent(s), ContentLength(s)))
  }

  // ---- reading ----

  /** read(fd, buf, cap) at stream position `pos`: 0 at the end of the stream, otherwise as many bytes as the network
      chooses, at least one. Positions grow from read to read, so `net` can express every split of the stream. */
  function ReadSize(stream: seq<Byte>, net: nat -> nat, pos: nat, cap: nat): (n: nat)
    requires pos <= |stream| && cap > 0
    ensures n <= cap && pos + n <= |stream| && (n == 0 <==> pos == |stream|)
  {
    Min(Max(net(pos), 1), Min(cap, |stream| - pos))
  }

  function BlankIn(stream: seq<Byte>, have: nat): Option<nat>
    requires have <= |stream|
  {
    Find(CString(stream[..have]), BLANK, 0, false)
  }

  /** The first loop: how many bytes have arrived when the blank line is seen. */
  function HeadRead(stream: seq<Byte>, net: nat -> nat, have: nat): Option<nat>
    requires have <= |stream|
    decreases MAX_HEADER_BYTES - have
  {
    if have >= MAX_HEADER_BYTES then None
    else
      var n := ReadSize(stream, net, have, MAX_HEADER_BYTES - have);
      if n == 0 then None
      else if BlankIn(stream, have + n).Some? then Some(have + n)
      else HeadRead(stream, net, have + n)
  }

  /** The rest of read_request, once `have` bytes have arrived and the blank line is among them. */
  function RequestAt(stream: seq<Byte>, have: nat): Option<Request> {
    if have > |stream| || BlankIn(stream, have).None? then None else
    var bodyStart := BlankIn(stream, have).value + 4;
    var head :- ParseHead(CString(stream[..have]));
    if head.length <= 0 then Some(Request(head.verb, head.path, head.userAgent, []))
    else if head.length > MAX_BODY_BYTES || bodyStart + head.length > |stream| then None
    else Some(Request(head.verb, head.path, head.userAgent, stream[bodyStart..bodyStart + head.length]))
  }

  /** read_request as a function of the stream and its fragmentation; None is -1. */
  function RequestFrom(stream: seq<Byte>, net: nat -> nat): Option<Request> {
    var have :- HeadRead(stream, net, 0);
    RequestAt(stream, have)
  }

  lemma {:induction false} HeadReadFinds(stream: seq<Byte>, net: nat -> nat, have: nat)
    requires have <= |stream|
    ensures var r := HeadRead(stream, net, have);
      r.Some? ==> r.value <= |stream| && r.value <= MAX_HEADER_BYTES && BlankIn(stream, r.value).Some?
    decreases MAX_HEADER_BYTES - have
  {
    hide BlankIn;
    if have < MAX_HEADER_BYTES {
      var n := ReadSize(stream, net, have, MAX_HEADER_BYTES - have);
      if n > 0 && BlankIn(stream, have + n).None? {
        HeadReadFinds(stream, net, have + n);
      }
    }
  }

  method ReadHead(stream: seq<Byte>, net: nat -> nat) returns (have: Option<nat>)
    ensures have == HeadRead(stream, net, 0)
  {
    hide BlankIn;
    var got := 0;
    while got < MAX_HEADER_BYTES
      invariant got <= |stream| && HeadRead(stream, net, got) == HeadRead(stream, net, 0)
    {
      var n := ReadSize(stream, net, got, MAX_HEADER_BYTES - got);
      if n == 0 {
        return None;
      }
      got := got + n;
      if BlankIn(stream, got).Some? {
        return Some(got);
      }
    }
    return None;
  }

  /** The second loop: the rest of the body, after the bytes that came with the head. */
  method ReadBody(stream: seq<Byte>, net: nat -> nat, have: nat, bodyStart: nat, length: nat)
    returns (body: Option<seq<Byte>>)
    requires bodyStart <= have <= |stream|
    ensures body == if bodyStart + length <= |stream| then Some(stream[bodyStart..bodyStart + length]) else None
  {
    var already := Min(have - bodyStart, length);
    var pos, bytes := have, stream[bodyStart..bodyStart + already];
    while |bytes| < length
      invariant |bytes| <= length && bodyStart + |bytes| <= |stream| && bytes == stream[bodyStart..bodyStart + |bytes|]
      invariant |bytes| < length ==> pos == bodyStart + |bytes|
    {
      var n := ReadSize(stream, net, pos, length - |bytes|);
      if n == 0 {
        return None;
      }
      bytes := bytes + stream[pos..pos + n];
      pos := pos + n;
    }
    return Some(bytes);
  }

  method ReadRequest(stream: seq<Byte>, net: nat -> nat) returns (r: Option<Request>)
    ensures r == RequestFrom(stream, net)
  {
    hide HeadRead, CString, ParseHead;
    var have := ReadHead(stream, net);
    HeadReadFinds(stream, net, 0);
    if have.None? {
      return None;
    }
    var blank := BlankIn(stream, have.value).value;
    var head := ParseHead(CString(stream[..have.value]));
    if head.None? {
      return None;
    }
    var Head(verb, path, agent, length) := head.value;
    if length <= 0 {
      return Some(Request(verb, path, agent, []));
    }
    if length > MAX_BODY_BYTES {
      return None;
    }
    var body := ReadBody(stream, net, have.value, blank + 4, length);
    if body.None? {
      return None;
    }
    return Some(Request(verb, path, agent, body.value));
  }
}

/** When the answer does not depend on how the network cuts the stream. */
module RequestLaws {
  import opened Wrappers
  import opened Bytes
  import opened RequestReader

  // ---- a prefix sees what the whole sees, as long as it stops inside the prefix ----

  lemma {:induction false} CutString(s: seq<Byte>, n: nat)
    requires n <= |s|
    ensures CString(s[..n]) == CString(s)[..Min(n, |CString(s)|)]
  {
    if n > 0 && s[0] != 0 {
      assert s[..n][1..] == s[1..][..n - 1];
      CutString(s[1..], n - 1);
    }
  }

  lemma {:induction false} MatchCut(s: seq<Byte>, t: seq<Byte>, pattern: seq<Byte>, i: nat, fold: bool)
    requires s <= t && i + |pattern| <= |s|
    ensures MatchAt(s, pattern, i, fold) <==> MatchAt(t, pattern, i, fold)
  {
  }

  lemma {:induction false} FindCut(s: seq<Byte>, t: seq<Byte>, pattern: seq<Byte>, i: nat, fold: bool)
    requires s <= t
    ensures var r := Find(t, pattern, i, fold);
      Find(s, pattern, i, fold) == if r.Some? && r.value + |pattern| <= |s| then r else None
  {
    var r, q := Find(t, pattern, i, fold), Find(s, pattern, i, fold);
    if q.Some? {
      MatchCut(s, t, pattern, q.value, fold);
    }
    if r.Some? && r.value + |pattern| <= |s| {
      MatchCut(s, t, pattern, r.value, fold);
    }
  }

  lemma {:induction false} SkipSpaceCut(s: seq<Byte>, t: seq<Byte>, i: nat)
    requires s <= t && i <= |s| && SkipSpace(t, i) < |s|
    ensures SkipSpace(s, i) == SkipSpace(t, i)
  {
    hide SkipSpace;
    assert forall k :: 0 <= k < |s| ==> s[k] == t[k];
  }

  lemma {:induction false} SkipBlanksCut(s: seq<Byte>, t: seq<Byte>, i: nat)
    requires s <= t && i <= |s| && SkipBlanks(t, i) < |s|
    ensures SkipBlanks(s, i) == SkipBlanks(t, i)
  {
    hide SkipBlanks;
    assert forall k :: 0 <= k < |s| ==> s[k] == t[k];
  }

  lemma {:induction false} TokenEndCut(s: seq<Byte>, t: seq<Byte>, i: nat, max: nat)
    requires s <= t && i <= |s| && TokenEnd(t, i, max) < |s|
    ensures TokenEnd(s, i, max) == TokenEnd(t, i, max)
  {
    hide TokenEnd;
    assert forall k :: 0 <= k < |s| ==> s[k] == t[k];
  }

  lemma {:induction false} DigitsEndCut(s: seq<Byte>, t: seq<Byte>, i: nat)
    requires s <= t && i <= |s| && DigitsEnd(t, i) < |s|
    ensures DigitsEnd(s, i) == DigitsEnd(t, i)
  {
    hide DigitsEnd;
    assert forall k :: 0 <= k < |s| ==> s[k] == t[k];
  }

  // ---- the head before the blank line ----

  /** What the string functions could see of the stream at most. */
  function Visible(stream: seq<Byte>): seq<Byte> {
    CString(stream[..Min(MAX_HEADER_BYTES, |stream|)])
  }

  /** The request line has two tokens that begin before the blank line at b. */
  predicate LineBefore(s: seq<Byte>, b: nat) {
    SecondToken(s) < b
  }

  /** A header, if present at all, begins before the blank line. */
  predicate HeaderBefore(s: seq<Byte>, pattern: seq<Byte>, b: nat) {
    var at := Find(s, pattern, 0, true);
    at.Some? ==> at.value < b
  }

  /** The Content-Length value has a character before the blank line; strtol would skip over an empty one, blank line
      included, into the body. */
  predicate LengthBefore(s: seq<Byte>, b: nat) {
    var at := Find(s, CONTENT_LENGTH, 0, true);
    at.Some? ==> at.value < b && SkipSpace(s, at.value + |CONTENT_LENGTH|) < b
  }

  /** A header name cannot straddle the blank line: it has no second carriage return. */
  lemma {:induction false} HeaderEndsBefore(s: seq<Byte>, pattern: seq<Byte>, i: nat, b: nat)
    requires pattern == USER_AGENT || pattern == CONTENT_LENGTH
    requires MatchAt(s, pattern, i, true) && MatchAt(s, BLANK, b, false) && i < b
    ensures i + |pattern| <= b
  {
    assert s[b + 0] == BLANK[0];
    forall k | i < k < i + |pattern|
      ensures s[k] != 13
    {
      assert Lower(s[i + (k - i)]) == pattern[k - i] && pattern[k - i] != 13;
    }
  }

  lemma {:induction false} LineCut(s: seq<Byte>, t: seq<Byte>, b: nat)
    requires s <= t && MatchAt(t, BLANK, b, false) && b + 4 <= |s| && LineBefore(t, b)
    ensures RequestLine(s) == RequestLine(t) && RequestLine(t).Some?
  {
    hide SkipSpace, TokenEnd;
    var i := SkipSpace(t, 0);
    var iEnd := TokenEnd(t, i, MAX_METHOD);
    var j := SkipSpace(t, iEnd);
    var jEnd := TokenEnd(t, j, MAX_PATH);
    assert t[b] == BLANK[0] && IsSpace(t[b]);
    SkipSpaceCut(s, t, 0);
    TokenEndCut(s, t, i, MAX_METHOD);
    SkipSpaceCut(s, t, iEnd);
    TokenEndCut(s, t, j, MAX_PATH);
    assert s[i..iEnd] == t[i..iEnd] && s[j..jEnd] == t[j..jEnd];
    assert !IsSpace(t[i]) && !IsSpace(t[j]);
  }

  lemma {:induction false} BlankIsCrlf(t: seq<Byte>, b: nat)
    requires MatchAt(t, BLANK, b, false)
    ensures b + 4 <= |t| && MatchAt(t, CRLF, b, false) && forall k :: b <= k < b + 4 ==> t[k] == 13 || t[k] == 10
  {
    assert t[b + 0] == BLANK[0] && t[b + 1] == BLANK[1] && t[b + 2] == BLANK[2] && t[b + 3] == BLANK[3];
  }

  lemma {:induction false} AgentValueCut(s: seq<Byte>, t: seq<Byte>, b: nat, i: nat)
    requires s <= t && MatchAt(t, BLANK, b, false) && b + 4 <= |s| && i <= b
    ensures AgentValue(s, i) == AgentValue(t, i)
  {
    hide SkipBlanks, Find, MatchAt;
    BlankIsCrlf(t, b);
    var from := SkipBlanks(t, i);
    assert t[b] != 32;
    assert from <= b;
    SkipBlanksCut(s, t, i);
    FindCut(s, t, CRLF, from, false);
    var end := Find(t, CRLF, from, false);
    assert end.Some? && end.value <= b;
    assert s[from..Min(end.value, from + MAX_UA)] == t[from..Min(end.value, from + MAX_UA)];
  }

  /** Behind the blank line, a truncated value is either empty or the whole value. */
  lemma {:induction false} AgentValueShrinks(s: seq<Byte>, t: seq<Byte>, i: nat)
    requires s <= t && i <= |s| && AgentValue(t, i) == []
    ensures AgentValue(s, i) == []
  {
    hide SkipBlanks, Find, MatchAt;
    var from := SkipBlanks(t, i);
    if from < |s| {
      SkipBlanksCut(s, t, i);
      FindCut(s, t, CRLF, from, false);
    } else {
      assert SkipBlanks(s, i) == |s| by {
        assert forall k :: 0 <= k < |s| ==> s[k] == t[k];
      }
      NothingAtEnd(s);
    }
  }

  lemma {:induction false} NothingAtEnd(s: seq<Byte>)
    ensures Find(s, CRLF, |s|, false).None?
  {
  }

  lemma {:induction false} AgentCut(s: seq<Byte>, t: seq<Byte>, b: nat)
    requires s <= t && MatchAt(t, BLANK, b, false) && b + 4 <= |s|
    ensures HeaderBefore(t, USER_AGENT, b) ==> UserAgent(s) == UserAgent(t)
    ensures UserAgent(t) == [] ==> UserAgent(s) == []
    ensures !HeaderBefore(t, USER_AGENT, b) && |s| == b + 4 ==> UserAgent(s) == []
  {
    hide Find, MatchAt, AgentValue;
    FindCut(s, t, USER_AGENT, 0, true);
    var at := Find(t, USER_AGENT, 0, true);
    if at.Some? {
      var i := at.value + |USER_AGENT|;
      if at.value < b {
        HeaderEndsBefore(t, USER_AGENT, at.value, b);
        AgentValueCut(s, t, b, i);
      }
      if i <= |s| && AgentValue(t, i) == [] {
        AgentValueShrinks(s, t, i);
      }
    }
  }

  lemma {:induction false} StrToLCut(s: seq<Byte>, t: seq<Byte>, b: nat, i: nat)
    requires s <= t && MatchAt(t, BLANK, b, false) && b + 4 <= |s| && i <= b && SkipSpace(t, i) < b
    ensures StrToL(s, i) == StrToL(t, i)
  {
    hide SkipSpace, DigitsEnd, MatchAt, Decimal;
    BlankIsCrlf(t, b);
    var w := SkipSpace(t, i);
    SkipSpaceCut(s, t, i);
    var from := if t[w] == 43 || t[w] == 45 then w + 1 else w;
    assert !IsDigit(t[b]);
    assert DigitsEnd(t, from) <= b;
    DigitsEndCut(s, t, from);
    assert s[from..DigitsEnd(t, from)] == t[from..DigitsEnd(t, from)];
  }

  lemma {:induction false} DecimalGrows(digits: seq<Byte>, n: nat)
    requires n <= |digits| && forall k :: 0 <= k < |digits| ==> IsDigit(digits[k])
    ensures 0 <= Decimal(digits[..n]) <= Decimal(digits)
    decreases |digits|
  {
    if n == |digits| {
      assert digits[..n] == digits;
      if n > 0 {
        DecimalGrows(digits[..n - 1], n - 1);
        assert digits[..n - 1][..n - 1] == digits[..n - 1];
      }
    } else {
      assert digits[..|digits| - 1][..n] == digits[..n];
      DecimalGrows(digits[..|digits| - 1], n);
    }
  }

  lemma {:induction false} DigitsShrink(s: seq<Byte>, t: seq<Byte>, from: nat)
    requires s <= t && from <= |s|
    ensures 0 <= Decimal(s[from..DigitsEnd(s, from)]) <= Decimal(t[from..DigitsEnd(t, from)])
  {
    hide DigitsEnd, Decimal;
    assert s == t[..|s|];
    var e, f := DigitsEnd(t, from), DigitsEnd(s, from);
    assert f == Min(e, |s|) by {
      assert forall k :: 0 <= k < |s| ==> s[k] == t[k];
    }
    var digits := t[from..e];
    assert digits[..f - from] == s[from..f];
    assert forall k :: 0 <= k < |digits| ==> digits[k] == t[from + k];
    DecimalGrows(digits, f - from);
  }

  /** A truncated number is not positive unless the whole number is. */
  lemma {:induction false} StrToLShrinks(s: seq<Byte>, t: seq<Byte>, i: nat)
    requires s <= t && i <= |s| && StrToL(t, i) <= 0
    ensures StrToL(s, i) <= 0
  {
    hide SkipSpace, DigitsEnd, Decimal;
    assert forall k :: 0 <= k < |s| ==> s[k] == t[k];
    var w := SkipSpace(t, i);
    if w < |s| {
      SkipSpaceCut(s, t, i);
      DigitsShrink(s, t, if t[w] == 43 || t[w] == 45 then w + 1 else w);
    } else {
      assert SkipSpace(s, i) == |s|;
      EmptyNumber(s, i);
    }
  }

  lemma {:induction false} EmptyNumber(s: seq<Byte>, i: nat)
    requires i <= |s| && SkipSpace(s, i) == |s|
    ensures StrToL(s, i) == 0
  {
    hide SkipSpace;
    assert s[|s|..|s|] == [];
  }

  lemma {:induction false} LengthCut(s: seq<Byte>, t: seq<Byte>, b: nat)
    requires s <= t && MatchAt(t, BLANK, b, false) && b + 4 <= |s|
    ensures LengthBefore(t, b) ==> ContentLength(s) == ContentLength(t)
    ensures ContentLength(t) <= 0 ==> ContentLength(s) <= 0
    ensures !LengthBefore(t, b) && |s| == b + 4 ==> ContentLength(s) == 0
  {
    hide Find, MatchAt, StrToL, SkipSpace;
    FindCut(s, t, CONTENT_LENGTH, 0, true);
    var at := Find(t, CONTENT_LENGTH, 0, true);
    if at.Some? {
      var i := at.value + |CONTENT_LENGTH|;
      if at.value < b {
        HeaderEndsBefore(t, CONTENT_LENGTH, at.value, b);
        if SkipSpace(t, i) < b {
          StrToLCut(s, t, b, i);
        } else if |s| == b + 4 {
          EmptyLength(s, t, b, i);
        }
      }
      if i <= |s| && StrToL(t, i) <= 0 {
        StrToLShrinks(s, t, i);
      }
    }
  }

  lemma {:induction false} EmptyLength(s: seq<Byte>, t: seq<Byte>, b: nat, i: nat)
    requires s <= t && MatchAt(t, BLANK, b, false) && |s| == b + 4 && i <= b && SkipSpace(t, i) >= b
    ensures StrToL(s, i) == 0
  {
    hide MatchAt, SkipSpace, DigitsEnd, Decimal;
    BlankIsCrlf(t, b);
    assert forall k :: 0 <= k < |s| ==> s[k] == t[k];
    assert SkipSpace(s, i) == |s|;
    EmptyNumber(s, i);
  }

  // ---- the first loop ----

  lemma {:induction false} BlankSeen(stream: seq<Byte>, have: nat)
    requires have <= |stream| && have <= MAX_HEADER_BYTES
    ensures var blank := Find(Visible(stream), BLANK, 0, false);
      BlankIn(stream, have) == if blank.Some? && blank.value + 4 <= have then blank else None
    ensures CString(stream[..have]) <= Visible(stream)
    ensures Find(Visible(stream), BLANK, 0, false).Some? && Find(Visible(stream), BLANK, 0, false).value + 4 <= have ==>
      Find(Visible(stream), BLANK, 0, false).value + 4 <= |CString(stream[..have])|
  {
    hide Find, CString;
    var whole := stream[..Min(MAX_HEADER_BYTES, |stream|)];
    assert whole[..have] == stream[..have];
    CutString(whole, have);
    FindCut(CString(stream[..have]), Visible(stream), BLANK, 0, false);
  }

  lemma {:induction false} HeadReadSees(stream: seq<Byte>, net: nat -> nat, have: nat)
    requires have <= |stream| && have <= MAX_HEADER_BYTES && BlankIn(stream, have).None?
    ensures var blank := Find(Visible(stream), BLANK, 0, false);
      var r := HeadRead(stream, net, have);
      && (blank.None? ==> r.None?)
      && (blank.Some? ==> r.Some? && blank.value + 4 <= r.value <= MAX_HEADER_BYTES && r.value <= |stream|)
    decreases MAX_HEADER_BYTES - have
  {
    hide BlankIn, Find;
    BlankSeen(stream, have);
    if have < MAX_HEADER_BYTES {
      var n := ReadSize(stream, net, have, MAX_HEADER_BYTES - have);
      BlankSeen(stream, have + n);
      if n > 0 && BlankIn(stream, have + n).None? {
        HeadReadSees(stream, net, have + n);
      }
    }
    VisibleLength(stream);
  }

  lemma {:induction false} VisibleLength(stream: seq<Byte>)
    ensures |Visible(stream)| <= MAX_HEADER_BYTES && |Visible(stream)| <= |stream|
  {
  }

  lemma {:induction false} NothingYet(stream: seq<Byte>)
    ensures BlankIn(stream, 0).None?
  {
    assert stream[..0] == [];
  }

  /** The request fails on its body, however it is cut. */
  predicate BodyFails(stream: seq<Byte>, b: nat) {
    var length := ContentLength(Visible(stream));
    length > MAX_BODY_BYTES || b + 4 + length > |stream|
  }

  /** What a stream must satisfy, given its blank line at b: the Content-Length value begins before the blank line, or
      is not positive; and so does the User-Agent header, or it is empty, unless the request fails anyway. */
  predicate Steady(stream: seq<Byte>, b: nat) {
    var s := Visible(stream);
    && (LengthBefore(s, b) || ContentLength(s) <= 0)
    && (HeaderBefore(s, USER_AGENT, b) || UserAgent(s) == [] || BodyFails(stream, b))
  }

  /** All the bytes the header buffer can take. */
  function Most(stream: seq<Byte>): nat {
    Min(MAX_HEADER_BYTES, |stream|)
  }

  /** The head after `have` bytes against the head after all of them. */
  lemma {:induction false} HeadsCompared(stream: seq<Byte>, b: nat, have: nat)
    requires Find(Visible(stream), BLANK, 0, false) == Some(b) && LineBefore(Visible(stream), b)
    requires b + 4 <= have <= Most(stream)
    ensures BlankIn(stream, have) == Some(b)
    ensures var s, t := CString(stream[..have]), Visible(stream);
      && RequestLine(s) == RequestLine(t) && RequestLine(t).Some?
      && (LengthBefore(t, b) ==> ContentLength(s) == ContentLength(t))
      && (ContentLength(t) <= 0 ==> ContentLength(s) <= 0)
      && (HeaderBefore(t, USER_AGENT, b) ==> UserAgent(s) == UserAgent(t))
      && (UserAgent(t) == [] ==> UserAgent(s) == [])
      && (have == b + 4 && !LengthBefore(t, b) ==> ContentLength(s) == 0)
      && (have == b + 4 && !HeaderBefore(t, USER_AGENT, b) ==> UserAgent(s) == [])
  {
    hide Find, CString, Visible, RequestLine, UserAgent, ContentLength, LineBefore, HeaderBefore, LengthBefore, MatchAt;
    BlankSeen(stream, have);
    var s, t := CString(stream[..have]), Visible(stream);
    LineCut(s, t, b);
    AgentCut(s, t, b);
    LengthCut(s, t, b);
  }

  lemma {:induction false} SteadyOutcome(stream: seq<Byte>, b: nat, have: nat)
    requires Find(Visible(stream), BLANK, 0, false) == Some(b) && LineBefore(Visible(stream), b)
    requires b + 4 <= have <= Most(stream) && Steady(stream, b)
    ensures RequestAt(stream, have) == RequestAt(stream, Most(stream))
  {
    hide Find, RequestLine, UserAgent, ContentLength, LineBefore, HeaderBefore, LengthBefore, BlankIn, CString;
    HeadsCompared(stream, b, have);
    HeadsCompared(stream, b, Most(stream));
  }

  lemma {:induction false} UnsteadyOutcome(stream: seq<Byte>, b: nat)
    requires Find(Visible(stream), BLANK, 0, false) == Some(b) && LineBefore(Visible(stream), b)
    requires b + 4 <= Most(stream) && !Steady(stream, b)
    ensures RequestAt(stream, b + 4) != RequestAt(stream, Most(stream))
  {
    hide Find, RequestLine, UserAgent, ContentLength, LineBefore, HeaderBefore, LengthBefore, BlankIn, CString;
    HeadsCompared(stream, b, b + 4);
    HeadsCompared(stream, b, Most(stream));
  }

  /** One byte per read stops exactly behind the blank line. */
  lemma {:induction false} ByteByByte(stream: seq<Byte>, have: nat)
    requires have <= |stream| && have <= MAX_HEADER_BYTES && BlankIn(stream, have).None?
    requires Find(Visible(stream), BLANK, 0, false).Some?
    ensures HeadRead(stream, _ => 1, have) == Some(Find(Visible(stream), BLANK, 0, false).value + 4)
    decreases MAX_HEADER_BYTES - have
  {
    hide BlankIn, Find, Visible;
    BlankSeen(stream, have);
    VisibleLength(stream);
    if have < MAX_HEADER_BYTES && have < |stream| {
      BlankSeen(stream, have + 1);
      if BlankIn(stream, have + 1).None? {
        ByteByByte(stream, have + 1);
      }
    }
  }

  /** One large read takes all there is. */
  lemma {:induction false} AllAtOnce(stream: seq<Byte>)
    requires Find(Visible(stream), BLANK, 0, false).Some?
    ensures HeadRead(stream, _ => MAX_HEADER_BYTES, 0) == Some(Most(stream))
  {
    hide BlankIn, Find;
    BlankSeen(stream, Most(stream));
    BlankSeen(stream, 0);
    NothingYet(stream);
    VisibleLength(stream);
  }

  // ---- a second token behind the blank line ----

  /** Up to the end of such a blank line there is no second token. */
  lemma {:induction false} LineTooLate(s: seq<Byte>, t: seq<Byte>, b: nat)
    requires s <= t && MatchAt(t, BLANK, b, false) && |s| == b + 4 && !LineBefore(t, b)
    ensures RequestLine(s).None?
  {
    hide SkipSpace, TokenEnd, MatchAt;
    BlankIsCrlf(t, b);
    assert forall k :: 0 <= k < |s| ==> s[k] == t[k];
    var i := SkipSpace(t, 0);
    if i < b {
      SkipSpaceCut(s, t, 0);
      var iEnd := TokenEnd(t, i, MAX_METHOD);
      assert IsSpace(t[b]) && iEnd <= b;
      TokenEndCut(s, t, i, MAX_METHOD);
      assert SkipSpace(s, iEnd) == |s|;
      assert TokenEnd(s, |s|, MAX_PATH) == |s|;
    } else {
      assert SkipSpace(s, 0) == |s|;
      assert TokenEnd(s, |s|, MAX_METHOD) == |s|;
    }
  }

  lemma {:induction false} TokensAre(s: seq<Byte>)
    ensures var i := SkipSpace(s, 0);
      RequestLine(s).Some? <==> i < |s| && SecondToken(s) < |s|
  {
  }

  /** Its first byte completes the request line. */
  lemma {:induction false} LineComplete(s: seq<Byte>, t: seq<Byte>)
    requires s <= t && SecondToken(t) < |s|
    ensures RequestLine(s).Some? <==> RequestLine(t).Some?
    ensures SecondToken(s) == SecondToken(t)
  {
    hide SkipSpace, TokenEnd, RequestLine, IsSpace;
    TokensAre(s);
    TokensAre(t);
    var i := SkipSpace(t, 0);
    SkipSpaceCut(s, t, 0);
    TokenEndCut(s, t, i, MAX_METHOD);
    SkipSpaceCut(s, t, TokenEnd(t, i, MAX_METHOD));
  }

  /** More bytes never spoil a request line. */
  lemma {:induction false} LineGrows(s: seq<Byte>, t: seq<Byte>)
    requires s <= t && RequestLine(s).Some?
    ensures RequestLine(t).Some?
  {
    hide SkipSpace, TokenEnd, RequestLine;
    TokensAre(s);
    TokensAre(t);
    assert forall k :: 0 <= k < |s| ==> s[k] == t[k];
    var i := SkipSpace(s, 0);
    assert SkipSpace(t, 0) == i;
    var iEnd := TokenEnd(s, i, MAX_METHOD);
    assert iEnd <= SecondToken(s) < |s|;
    assert TokenEnd(t, i, MAX_METHOD) == iEnd;
  }

  /** Three of the fifteen bytes of the name "content-length:". */
  lemma {:induction false} NameHasNoSpace(s: seq<Byte>, m: nat)
    requires MatchAt(s, CONTENT_LENGTH, m, true)
    ensures m + 17 <= |s| && !IsSpace(s[m + 2]) && !IsSpace(s[m + 3]) && !IsSpace(s[m + 10])
  {
    assert Lower(s[m + 2]) == CONTENT_LENGTH[2] && Lower(s[m + 3]) == CONTENT_LENGTH[3];
    assert Lower(s[m + 10]) == CONTENT_LENGTH[10];
  }

  /** A head that ends with the first byte of its second token has no room for a Content-Length: its longest run
      without a space is seven bytes of the first token and that byte. */
  lemma {:induction false} NoRoomForLength(s: seq<Byte>, m: nat)
    requires RequestLine(s).Some? && |s| == SecondToken(s) + 1
    ensures !MatchAt(s, CONTENT_LENGTH, m, true)
  {
    hide SkipSpace, TokenEnd, RequestLine, MatchAt, IsSpace;
    TokensAre(s);
    if MatchAt(s, CONTENT_LENGTH, m, true) {
      NameHasNoSpace(s, m);
      assert false;
    }
  }

  lemma {:induction false} NoLength(s: seq<Byte>)
    requires RequestLine(s).Some? && |s| == SecondToken(s) + 1
    ensures ContentLength(s) == 0
  {
    hide SecondToken, RequestLine, MatchAt;
    var at := Find(s, CONTENT_LENGTH, 0, true);
    if at.Some? {
      NoRoomForLength(s, at.value);
    }
  }

  /** A request line that continues behind the blank line: read byte by byte the request fails, but a read that ends
      with the first byte of the second token makes it succeed, without a body. */
  lemma {:induction false} LateLineOutcome(stream: seq<Byte>, b: nat)
    requires Find(Visible(stream), BLANK, 0, false) == Some(b) && !LineBefore(Visible(stream), b)
    requires RequestLine(Visible(stream)).Some?
    ensures var have := SecondToken(Visible(stream)) + 1;
      b + 4 <= have <= Most(stream) && RequestAt(stream, b + 4).None? && RequestAt(stream, have).Some?
  {
    hide Find, CString, RequestLine, ContentLength, UserAgent, SkipSpace, TokenEnd, MatchAt;
    var t := Visible(stream);
    VisibleLength(stream);
    TokensAre(t);
    BlankIsCrlf(t, b);
    var j := SecondToken(t);
    assert b + 4 <= j;
    BlankSeen(stream, b + 4);
    LineTooLate(CString(stream[..b + 4]), t, b);
    BlankSeen(stream, j + 1);
    var whole := stream[..Most(stream)];
    assert whole[..j + 1] == stream[..j + 1];
    CutString(whole, j + 1);
    LineComplete(t[..j + 1], t);
    NoLength(t[..j + 1]);
  }

  /** A first read of the right size stops the first loop there. */
  lemma {:induction false} OneReadOf(stream: seq<Byte>, have: nat)
    requires 0 < have <= Most(stream) && BlankIn(stream, have).Some?
    ensures HeadRead(stream, _ => have, 0) == Some(have)
  {
    hide BlankIn;
  }

  lemma {:induction false} NoLineNoRequest(stream: seq<Byte>, have: nat)
    requires have <= Most(stream) && RequestLine(Visible(stream)).None?
    ensures RequestAt(stream, have).None?
  {
    hide Find, CString, RequestLine, ContentLength, UserAgent;
    BlankSeen(stream, have);
    if RequestLine(CString(stream[..have])).Some? {
      LineGrows(CString(stream[..have]), Visible(stream));
    }
  }

  // ---- the theorem ----

  /** The streams whose answer is settled before the network cuts them: no blank line in the first 16384 bytes, no
      request line in them, or a request line before the blank line and a steady head. */
  predicate Settled(stream: seq<Byte>) {
    var blank := Find(Visible(stream), BLANK, 0, false);
    || blank.None?
    || RequestLine(Visible(stream)).None?
    || (LineBefore(Visible(stream), blank.value) && Steady(stream, blank.value))
  }

  /** Any two fragmentations of a settled stream give the same failure or the same request. */
  lemma {:induction false} FragmentationIndependence(stream: seq<Byte>, net: nat -> nat, other: nat -> nat)
    requires Settled(stream)
    ensures RequestFrom(stream, net) == RequestFrom(stream, other)
  {
    hide Find, Visible, LineBefore, Steady, HeadRead, BlankIn, RequestAt, RequestLine;
    NothingYet(stream);
    HeadReadSees(stream, net, 0);
    HeadReadSees(stream, other, 0);
    var blank := Find(Visible(stream), BLANK, 0, false);
    if blank.Some? {
      var x, y := HeadRead(stream, net, 0).value, HeadRead(stream, other, 0).value;
      if RequestLine(Visible(stream)).None? {
        NoLineNoRequest(stream, x);
        NoLineNoRequest(stream, y);
      } else {
        SteadyOutcome(stream, blank.value, x);
        SteadyOutcome(stream, blank.value, y);
      }
    }
  }

  /** An unsettled stream has two fragmentations with different answers. */
  lemma {:induction false} UnsettledDepends(stream: seq<Byte>) returns (net: nat -> nat)
    requires !Settled(stream)
    ensures RequestFrom(stream, _ => 1) != RequestFrom(stream, net)
  {
    hide Find, Visible, LineBefore, Steady, HeadRead, BlankIn, RequestAt, RequestLine;
    var b := Find(Visible(stream), BLANK, 0, false).value;
    NothingYet(stream);
    ByteByByte(stream, 0);
    BlankSeen(stream, Most(stream));
    VisibleLength(stream);
    if LineBefore(Visible(stream), b) {
      AllAtOnce(stream);
      UnsteadyOutcome(stream, b);
      net := _ => MAX_HEADER_BYTES;
    } else {
      LateLineOutcome(stream, b);
      var have := SecondToken(Visible(stream)) + 1;
      BlankSeen(stream, have);
      OneReadOf(stream, have);
      net := _ => have;
    }
  }

  /** For every stream: its answer does not depend on how the network cuts it exactly when it is settled. */
  lemma {:induction false} FragmentationExactly(stream: seq<Byte>)
    ensures Settled(stream) <==>
            forall net: nat -> nat, other: nat -> nat :: RequestFrom(stream, net) == RequestFrom(stream, other)
  {
    hide Settled, RequestFrom;
    if Settled(stream) {
      forall net: nat -> nat, other: nat -> nat
        ensures RequestFrom(stream, net) == RequestFrom(stream, other)
      {
        FragmentationIndependence(stream, net, other);
      }
    } else {
      var net := UnsettledDepends(stream);
    }
  }

  /** The body is exactly the Content-Length bytes behind the blank line (RFC 9112, section 6.3), whatever arrived with
      the head. */
  lemma {:induction false} BodyIsExact(stream: seq<Byte>, net: nat -> nat)
    requires RequestFrom(stream, net).Some?
    ensures var blank := Find(Visible(stream), BLANK, 0, false);
      && blank.Some?
      && var body := RequestFrom(stream, net).value.body;
        blank.value + 4 + |body| <= |stream| && body == stream[blank.value + 4..blank.value + 4 + |body|]
    ensures HeadRead(stream, net, 0).Some? && HeadRead(stream, net, 0).value <= |stream|
    ensures var length := ContentLength(CString(stream[..HeadRead(stream, net, 0).value]));
      |RequestFrom(stream, net).value.body| == Max(length, 0) <= MAX_BODY_BYTES
  {
    hide Find, CString, Visible, RequestLine, UserAgent, ContentLength, HeadRead, BlankIn;
    NothingYet(stream);
    HeadReadSees(stream, net, 0);
    BlankSeen(stream, HeadRead(stream, net, 0).value);
    VisibleLength(stream);
  }

  // ---- a stream that is not steady ----

  /** "G /", an empty Content-Length, the blank line, and a body of "5". */
  const EMPTY_LENGTH: seq<Byte> :=
    [71, 32, 47, 13, 10, 67, 111, 110, 116, 101, 110, 116, 45, 76, 101, 110, 103, 116, 104, 58, 13, 10, 13, 10, 53]

  lemma {:induction false} NoNul(s: seq<Byte>)
    requires 0 !in s
    ensures CString(s) == s
  {
    if s != [] {
      NoNul(s[1..]);
    }
  }

  lemma {:induction false} EmptyLengthBlank()
    ensures Find(EMPTY_LENGTH, BLANK, 0, false) == Some(20)
  {
    var s := EMPTY_LENGTH;
    assert MatchAt(s, BLANK, 20, false);
    forall j | 0 <= j < 20
      ensures !MatchAt(s, BLANK, j, false)
    {
      assert s[j + 0] == BLANK[0] ==> j == 3;
      assert s[3 + 2] != BLANK[2];
    }
  }

  lemma {:induction false} EmptyLengthHeader()
    ensures Find(EMPTY_LENGTH, CONTENT_LENGTH, 0, true) == Some(3)
  {
    var s := EMPTY_LENGTH;
    assert MatchAt(s, CONTENT_LENGTH, 3, true);
    forall j | 0 <= j < 3
      ensures !MatchAt(s, CONTENT_LENGTH, j, true)
    {
      assert Lower(s[j + 0]) != CONTENT_LENGTH[0];
    }
  }

  lemma {:induction false} EmptyLengthSpaces()
    ensures var s := EMPTY_LENGTH;
      SkipSpace(s, 20) == 24 && StrToL(s, 20) == 5 && SkipSpace(s, TokenEnd(s, SkipSpace(s, 0), MAX_METHOD)) == 2
  {
    var s := EMPTY_LENGTH;
    assert DigitsEnd(s, 24) == 25;
    assert s[24..25] == [53];
    assert Decimal([53]) == 5;
    assert SkipSpace(s, 0) == 0 && TokenEnd(s, 0, MAX_METHOD) == 1 && SkipSpace(s, 1) == 2;
  }

  lemma {:induction false} ShortVisible(s: seq<Byte>)
    requires 0 !in s && |s| <= MAX_HEADER_BYTES
    ensures Visible(s) == s
  {
    NoNul(s);
    assert s[..|s|] == s;
  }

  lemma {:induction false} EmptyLengthVisible()
    ensures Visible(EMPTY_LENGTH) == EMPTY_LENGTH
  {
    hide Visible;
    ShortVisible(EMPTY_LENGTH);
  }

  lemma {:induction false} EmptyLengthUnsteady()
    ensures LineBefore(Visible(EMPTY_LENGTH), 20) && !Steady(EMPTY_LENGTH, 20)
  {
    hide Find, SkipSpace, TokenEnd, StrToL, UserAgent, Visible;
    EmptyLengthVisible();
    EmptyLengthHeader();
    EmptyLengthSpaces();
    assert ContentLength(EMPTY_LENGTH) == 5;
  }

  /** An empty Content-Length makes strtol read on into the body, if it is there yet: byte by byte, the request has no
      body; in one piece, it fails. */
  lemma {:induction false} EmptyLengthDepends()
    ensures RequestFrom(EMPTY_LENGTH, _ => 1) != RequestFrom(EMPTY_LENGTH, _ => MAX_HEADER_BYTES)
  {
    hide Find, LineBefore, Steady, HeadRead, BlankIn, RequestAt, MatchAt, Visible;
    var s := EMPTY_LENGTH;
    EmptyLengthVisible();
    EmptyLengthBlank();
    EmptyLengthUnsteady();
    NothingYet(s);
    ByteByByte(s, 0);
    AllAtOnce(s);
    BlankSeen(s, Most(s));
    VisibleLength(s);
    UnsteadyOutcome(s, 20);
  }
}
