/** The request parser of src/http.c, which works on the payload in place. */
module HttpRequest {
  import opened Bytes

  const GET: seq<byte> := [71, 69, 84, 32]         // "GET "
  const POST: seq<byte> := [80, 79, 83, 84, 32]    // "POST "
  const BLANK_LINE: seq<byte> := [13, 10, 13, 10]
  const QUESTION: byte := 63
  const NUL: byte := 0

  datatype Method = Get | Post

  /** http_request_t. Strings are given by the address of their first character; the length of the body is a size_t. */
  datatype Request = Request(method_: Method, url: nat, query: nat, body: nat, bodyLength: uint32)

  /** Unknown method: answered with status 400. Invalid: the connection is closed. */
  datatype Outcome = UnknownMethod | Invalid | Parsed(request: Request)

  /** isspace() in the "C" locale */
  predicate IsSpace(b: byte) {
    b == 32 || 9 <= b <= 13
  }

  /** memcmp(&s[p], lit, sizeof lit) == 0 */
  predicate Starts(s: seq<byte>, p: nat, lit: seq<byte>) {
    p + |lit| <= |s| && s[p..p + |lit|] == lit
  }

  /** memcmp(&s[p], "\r\n\r\n", 4) == 0 */
  predicate BlankAt(s: seq<byte>, p: nat) {
    p + 4 <= |s| && s[p] == 13 && s[p + 1] == 10 && s[p + 2] == 13 && s[p + 3] == 10
  }

  // ---------- what the parser computes ----------

  /** First position from p on that does not hold a space; some byte of the memory behind stops the search. */
  function SkipSpaces(s: seq<byte>, p: nat): (q: nat)
    requires p < |s| && !IsSpace(s[|s| - 1])
    ensures p <= q < |s| && !IsSpace(s[q]) && forall i :: p <= i < q ==> IsSpace(s[i])
    decreases |s| - p
  {
    if IsSpace(s[p]) then SkipSpaces(s, p + 1) else p
  }

  /** Where the word that starts at p ends: at a space, at a question mark if `query` says so, or at the end. */
  function WordEnd(s: seq<byte>, p: nat, end: nat, query: bool): (q: nat)
    requires end <= |s|
    ensures q >= p && (q < end ==> Stops(s[q], query))
    ensures forall i :: p <= i < q && i < end ==> !Stops(s[i], query)
    decreases end - p
  {
    if p < end && !Stops(s[p], query) then WordEnd(s, p + 1, end, query) else p
  }

  predicate Stops(b: byte, query: bool) {
    IsSpace(b) || (query && b == QUESTION)
  }

  /** The first position from p on that starts with a blank line; beyond p itself, only positions before the end. */
  function BlankLine(s: seq<byte>, p: nat, end: nat): (q: nat)
    requires end <= |s|
    ensures q >= p && (BlankAt(s, q) || q >= end)
    ensures forall i :: p <= i < q && i < end ==> !BlankAt(s, i)
    decreases end - p
  {
    if p >= end || BlankAt(s, p) then p else BlankLine(s, p + 1, end)
  }

  /** The memory and the outcome that handle_new_request leaves for a payload at [start, end). */
  function Parse(s: seq<byte>, start: nat, end: nat): (seq<byte>, Outcome)
    requires start <= end <= |s| - 4 && !IsSpace(s[|s| - 1])
  {
    var p := SkipSpaces(s, start);
    if Starts(s, p, GET) then ParseUrl(s, Get, p + 4, end)
    else if Starts(s, p, POST) then ParseUrl(s, Post, p + 5, end)
    else (s, UnknownMethod)
  }

  function ParseUrl(s: seq<byte>, m: Method, p: nat, end: nat): (seq<byte>, Outcome)
    requires end <= |s| - 4 && 0 < p <= |s| && IsSpace(s[p - 1]) && !IsSpace(s[|s| - 1])
  {
    var url := SkipSpaces(s, p);
    var urlEnd := WordEnd(s, url, end, true);
    if urlEnd >= end then (s, Invalid)
    else if s[urlEnd] != QUESTION then ParseHeaders(s[urlEnd := NUL], m, url, urlEnd, urlEnd + 1, end)
    else
      var queryEnd := WordEnd(s, urlEnd + 1, end, false);
      var t := s[urlEnd := NUL];
      if queryEnd >= end then (t, Invalid)
      else ParseHeaders(t[queryEnd := NUL], m, url, urlEnd + 1, queryEnd, end)
  }

  function ParseHeaders(s: seq<byte>, m: Method, url: nat, query: nat, p: nat, end: nat): (seq<byte>, Outcome)
    requires end <= |s| - 4
  {
    var q := BlankLine(s, p, end);
    if BlankAt(s, q) && (q == p || q < end)
    then (s, Parsed(Request(m, url, query, q + 4, (end - (q + 4)) % 0x1_0000_0000)))
    else (s, Invalid)
  }

  // ---------- the parser ----------

  /** The storage of the payload and what lies behind it in memory, which the parser may read but does not write. */
  function Memory(data: array<byte>, behind: seq<byte>): (s: seq<byte>)
    reads data
    ensures |s| == data.Length + |behind|
  {
    data[..] + behind
  }

  /** The byte at address p. */
  function At(data: array<byte>, behind: seq<byte>, p: nat): (b: byte)
    requires p < data.Length + |behind|
    reads data
    ensures b == Memory(data, behind)[p]
  {
    if p < data.Length then data[p] else behind[p - data.Length]
  }

  /** What lies behind ends in something that is not a space, so that isspace stops somewhere. */
  predicate Stopper(behind: seq<byte>) {
    |behind| >= 4 && !IsSpace(behind[|behind| - 1])
  }

  /** What the parser makes of a payload in memory: the memory that it leaves, and the outcome. */
  function ParseIn(data: array<byte>, behind: seq<byte>, start: nat, end: nat): (seq<byte>, Outcome)
    requires start <= end <= data.Length && Stopper(behind)
    reads data
  {
    LastIsBehind(data, behind);
    Parse(Memory(data, behind), start, end)
  }

  lemma LastIsBehind(data: array<byte>, behind: seq<byte>)
    requires behind != []
    ensures var s := Memory(data, behind); s[|s| - 1] == behind[|behind| - 1]
  {
  }

  /** The loop that ends at the blank line. It looks for the next carriage return rather than at every byte. */
  method FindBlankLine(data: array<byte>, behind: seq<byte>, start: nat, end: nat) returns (found: bool, q: nat)
    requires start <= end <= data.Length && |behind| >= 4
    ensures found ==> start <= q && BlankAt(Memory(data, behind), q) && (q == start || q < end)
    ensures found ==> forall i :: start <= i < q ==> !BlankAt(Memory(data, behind), i)
    ensures !found ==> forall i :: i == start || start < i < end ==> !BlankAt(Memory(data, behind), i)
  {
    ghost var s := Memory(data, behind);
    q := start;
    while !(At(data, behind, q) == 13 && At(data, behind, q + 1) == 10
            && At(data, behind, q + 2) == 13 && At(data, behind, q + 3) == 10)
      invariant start <= q && (q == start || q < end)
      invariant forall i :: start <= i < q ==> !BlankAt(s, i)
      decreases end - q
    {
      q := q + 1;
      while q < end && data[q] != 13
        invariant start < q
        invariant forall i :: start <= i < q ==> !BlankAt(s, i)
      {
        q := q + 1;
      }
      if q >= end {
        return false, q;
      }
    }
    return true, q;
  }

  /** `while (isspace(*p)) p++` */
  method SkipSpacesAt(data: array<byte>, behind: seq<byte>, start: nat) returns (p: nat)
    requires start < data.Length + |behind| && Stopper(behind)
    ensures p == SkipSpaces(Memory(data, behind), start)
  {
    ghost var s := Memory(data, behind);
    p := start;
    while IsSpace(At(data, behind, p))
      invariant start <= p < |s| && SkipSpaces(s, start) == SkipSpaces(s, p)
      decreases |s| - p
    {
      p := p + 1;
    }
  }

  /** The loops that look for the end of the URL and of the query. */
  method FindWordEnd(data: array<byte>, behind: seq<byte>, start: nat, end: nat, query: bool) returns (p: nat)
    requires end <= data.Length
    ensures p == WordEnd(Memory(data, behind), start, end, query)
  {
    ghost var s := Memory(data, behind);
    p := start;
    while p < end && !Stops(data[p], query)
      invariant start <= p && WordEnd(s, start, end, query) == WordEnd(s, p, end, query)
    {
      p := p + 1;
    }
  }

  /** `*p = '\0'` */
  method Terminate(data: array<byte>, behind: seq<byte>, p: nat)
    requires p < data.Length
    modifies data
    ensures Memory(data, behind) == old(Memory(data, behind))[p := NUL]
  {
    data[p] := NUL;
  }

  /** handle_new_request, up to the dispatch to a handler. */
  method HandleNewRequest(data: array<byte>, behind: seq<byte>, start: nat, end: nat) returns (outcome: Outcome)
    requires start <= end <= data.Length && Stopper(behind)
    modifies data
    ensures (Memory(data, behind), outcome) == old(ParseIn(data, behind, start, end))
  {
    hide ParseUrl, SkipSpaces;
    var p := SkipSpacesAt(data, behind, start);
    if Starts(Memory(data, behind), p, GET) {
      outcome := HandleUrl(data, behind, Get, p + 4, end);
    } else if Starts(Memory(data, behind), p, POST) {
      outcome := HandleUrl(data, behind, Post, p + 5, end);
    } else {
      outcome := UnknownMethod;
    }
  }

  method HandleUrl(data: array<byte>, behind: seq<byte>, m: Method, start: nat, end: nat) returns (outcome: Outcome)
    requires end <= data.Length && Stopper(behind)
    requires 0 < start <= data.Length + |behind| && IsSpace(Memory(data, behind)[start - 1])
    modifies data
    ensures (Memory(data, behind), outcome) == ParseUrl(old(Memory(data, behind)), m, start, end)
  {
    hide ParseHeaders, SkipSpaces, WordEnd, Memory;
    ghost var s := Memory(data, behind);
    LastIsBehind(data, behind);
    var url := SkipSpacesAt(data, behind, start);
    var p := FindWordEnd(data, behind, url, end, true);
    if p >= end {
      return Invalid;
    }
    var query;
    if At(data, behind, p) != QUESTION {
      query := p;
      Terminate(data, behind, p);
      p := p + 1;
    } else {
      Terminate(data, behind, p);
      p := p + 1;
      query := p;
      p := FindWordEnd(data, behind, p, end, false);
      WordEndBehind(s, Memory(data, behind), query, end);
      if p >= end {
        return Invalid;
      }
      Terminate(data, behind, p);
    }
    outcome := HandleHeaders(data, behind, m, url, query, p, end);
  }

  lemma {:induction false} WordEndBehind(s: seq<byte>, t: seq<byte>, p: nat, end: nat)
    requires |s| == |t| && end <= |s| && forall i :: p <= i < |s| ==> s[i] == t[i]
    ensures WordEnd(s, p, end, false) == WordEnd(t, p, end, false)
    decreases end - p
  {
    if p < end {
      WordEndBehind(s, t, p + 1, end);
    }
  }

  method HandleHeaders(data: array<byte>, behind: seq<byte>, m: Method, url: nat, query: nat, start: nat, end: nat)
    returns (outcome: Outcome)
    requires start <= end <= data.Length && |behind| >= 4
    ensures (Memory(data, behind), outcome) == ParseHeaders(Memory(data, behind), m, url, query, start, end)
  {
    var found, p := FindBlankLine(data, behind, start, end);
    if found {
      outcome := Parsed(Request(m, url, query, p + 4, (end - (p + 4)) % 0x1_0000_0000));
    } else {
      outcome := Invalid;
    }
  }

  /** The parser writes nothing outside the payload. */
  lemma ParseWithin(s: seq<byte>, start: nat, end: nat)
    requires start <= end <= |s| - 4 && !IsSpace(s[|s| - 1])
    ensures var t := Parse(s, start, end).0;
            |t| == |s| && forall i :: 0 <= i < |s| && !(start <= i < end) ==> t[i] == s[i]
  {
    hide SkipSpaces, WordEnd, BlankLine;
  }

  /** White space is a space or one of the five control characters from tab to carriage return. */
  lemma WhiteSpace(b: byte)
    ensures IsSpace(b) <==> b == 32 || b == 9 || b == 10 || b == 11 || b == 12 || b == 13
    ensures Stops(b, false) <==> IsSpace(b)
    ensures Stops(b, true) <==> IsSpace(b) || b == 63
  {
  }

  lemma BlankInOctets(s: seq<byte>, p: nat)
    ensures BlankAt(s, p) <==> p + 4 <= |s| && s[p..p + 4] == [13, 10, 13, 10]
  {
    if p + 4 <= |s| {
      assert s[p..p + 4] == [s[p], s[p + 1], s[p + 2], s[p + 3]];
    }
  }

  /** A request is answered as one with an unknown method if and only if neither "GET " nor "POST " is the first thing
      behind any white space. */
  lemma UnknownMethodExactly(s: seq<byte>, start: nat, end: nat, p: nat)
    requires start <= end <= |s| - 4 && !IsSpace(s[|s| - 1])
    requires start <= p < |s| && !IsSpace(s[p]) && forall i :: start <= i < p ==> IsSpace(s[i])
    ensures Parse(s, start, end).1.UnknownMethod? <==>
            !(p + 4 <= |s| && s[p..p + 4] == [71, 69, 84, 32]) && !(p + 5 <= |s| && s[p..p + 5] == [80, 79, 83, 84, 32])
    ensures Parse(s, start, end).1.Parsed? ==>
              (Parse(s, start, end).1.request.method_.Get? <==> p + 4 <= |s| && s[p..p + 4] == [71, 69, 84, 32])
  {
    hide ParseUrl;
    assert SkipSpaces(s, start) == p;
    if Starts(s, p, GET) {
      MethodKept(s, Get, p, 4, end);
    } else if Starts(s, p, POST) {
      MethodKept(s, Post, p, 5, end);
    }
  }

  lemma MethodKept(s: seq<byte>, m: Method, p: nat, n: nat, end: nat)
    requires end <= |s| - 4 && !IsSpace(s[|s| - 1]) && 0 < n && p + n <= |s| && s[p..p + n][n - 1] == 32
    ensures IsSpace(s[p + n - 1])
    ensures var outcome := ParseUrl(s, m, p + n, end).1;
            !outcome.UnknownMethod? && (outcome.Parsed? ==> outcome.request.method_ == m)
  {
    hide SkipSpaces, WordEnd, BlankLine;
  }

  /** A request is invalid if and only if white space or a question mark does not end its URL inside the payload, or
      white space its query, or no blank line follows that begins inside the payload or right behind the URL. */
  lemma InvalidExactly(s: seq<byte>, m: Method, p: nat, end: nat)
    requires end <= |s| - 4 && 0 < p <= |s| && IsSpace(s[p - 1]) && !IsSpace(s[|s| - 1])
    ensures var u := SkipSpaces(s, p);
            var e := WordEnd(s, u, end, true);
            var outcome := ParseUrl(s, m, p, end).1;
            && (outcome.Invalid? <==>
                  || e >= end
                  || (if s[e] == 63
                      then WordEnd(s, e + 1, end, false) >= end
                           || forall i :: WordEnd(s, e + 1, end, false) < i < end ==> !BlankAt(s, i)
                      else forall i :: i == e + 1 || e + 1 < i < end ==> !BlankAt(s, i)))
            && (outcome.Parsed? ==>
                  && outcome.request.method_ == m && outcome.request.url == u
                  && outcome.request.query == if s[e] == 63 then e + 1 else e)
  {
    hide SkipSpaces, WordEnd, BlankLine;
    var u := SkipSpaces(s, p);
    var e := WordEnd(s, u, end, true);
    if e < end {
      if s[e] == QUESTION {
        var v := WordEnd(s, e + 1, end, false);
        if v < end {
          HeadersExactly(s, s[e := NUL][v := NUL], m, u, e + 1, v, end);
        }
      } else {
        HeadersExactly(s, s[e := NUL], m, u, e, e + 1, end);
        assert BlankAt(s[e := NUL], e + 1) <==> BlankAt(s, e + 1);
      }
    }
  }

  lemma HeadersExactly(s: seq<byte>, t: seq<byte>, m: Method, url: nat, query: nat, p: nat, end: nat)
    requires end <= |s| - 4 && |t| == |s| && p <= end && forall i :: p < i < |s| ==> t[i] == s[i]
    ensures ParseHeaders(t, m, url, query, p, end).1.Invalid? <==>
            !BlankAt(t, p) && forall i :: p < i < end ==> !BlankAt(s, i)
    ensures var outcome := ParseHeaders(t, m, url, query, p, end).1;
            outcome.Parsed? ==>
              outcome.request.method_ == m && outcome.request.url == url && outcome.request.query == query
  {
    var q := BlankLine(t, p, end);
    assert forall i :: p < i < end ==> (BlankAt(s, i) <==> BlankAt(t, i));
  }

  /** The length of the body, a size_t, is right if and only if a blank line lies inside the payload. One that begins
      before the end of the payload and goes on in the memory behind it is found too, and then the length wraps. */
  lemma BodyLengthIsExact(s: seq<byte>, m: Method, url: nat, query: nat, p: nat, end: nat)
    requires p <= end <= |s| - 4 && end < 0x1_0000_0000
    ensures var outcome := ParseHeaders(s, m, url, query, p, end).1;
            outcome.Parsed? ==>
              var r := outcome.request;
              && p + 4 <= r.body <= end + 4 && BlankAt(s, r.body - 4)
              && (r.body + r.bodyLength == end <==> exists i :: p <= i <= end - 4 && BlankAt(s, i))
              && (r.body > end <==> r.bodyLength == 0x1_0000_0000 - (r.body - end))
  {
    hide BlankAt;
    var q := BlankLine(s, p, end);
    assert q + 4 <= end && BlankAt(s, q) ==> exists i :: p <= i <= end - 4 && BlankAt(s, i);
  }

  /** "GET / " and one line end in the payload, and another one left behind it by an earlier frame: a request with a
      body of 4294967294 bytes. */
  lemma StraddlingBlankLine()
    ensures Parse(GET + [47, 32, 13, 10] + [13, 10, 0, 0], 0, 8).1 == Parsed(Request(Get, 4, 5, 10, 0xFFFF_FFFE))
  {
    var s := GET + [47, 32, 13, 10] + [13, 10, 0, 0];
    assert SkipSpaces(s, 0) == 0 && Starts(s, 0, GET);
    assert SkipSpaces(s, 4) == 4;
    assert WordEnd(s, 5, 8, true) == 5 && WordEnd(s, 4, 8, true) == 5;
    var t := s[5 := NUL];
    assert BlankAt(t, 6) && BlankLine(t, 6, 8) == 6;
  }

  // ---------- reading what a client writes ----------

  datatype Option<T> = None | Some(value: T)

  /** A request as a client words it. `rest` is all from the protocol version to the end of the last header line. */
  datatype Wording = Wording(lead: seq<byte>, method_: Method, url: seq<byte>, query: Option<seq<byte>>, sep: byte,
                             rest: seq<byte>, body: seq<byte>)
  {
    /** White space is a space (32) or one of the control characters from tab to carriage return (9 to 13). The URL has
        none, and no NUL and no question mark (63); the query has none and no NUL; the headers have no empty line. */
    predicate Valid() {
      && (forall i :: 0 <= i < |lead| ==> lead[i] == 32 || 9 <= lead[i] <= 13)
      && (forall i :: 0 <= i < |url| ==> url[i] != 0 && !(9 <= url[i] <= 13) && url[i] != 32 && url[i] != 63)
      && (query.Some? ==>
            forall i :: 0 <= i < |query.value| ==>
              query.value[i] != 0 && !(9 <= query.value[i] <= 13) && query.value[i] != 32)
      && (url != [] || query.Some?)
      && (sep == 32 || 9 <= sep <= 13)
      && NoEmptyLine(rest + [13, 10, 13, 10], |rest|)
      && |body| < 0x1_0000_0000
    }

    static predicate NoEmptyLine(t: seq<byte>, n: nat)
      requires n + 3 < |t|
    {
      forall i :: 0 <= i < n ==> !(t[i] == 13 && t[i + 1] == 10 && t[i + 2] == 13 && t[i + 3] == 10)
    }

    /** "GET " or "POST " */
    function Name(): seq<byte> {
      if method_ == Get then [71, 69, 84, 32] else [80, 79, 83, 84, 32]
    }

    /** The query follows a question mark. */
    function Target(): seq<byte> {
      url + if query.Some? then [63] + query.value else []
    }

    /** The headers end with an empty line. */
    function Behind(): seq<byte> {
      rest + [13, 10, 13, 10] + body
    }

    function Bytes(): seq<byte> {
      lead + Name() + Target() + [sep] + Behind()
    }
  }

  /** The string that starts at p */
  function CString(s: seq<byte>, p: nat): seq<byte>
    decreases |s| - p
  {
    if p < |s| && s[p] != NUL then [s[p]] + CString(s, p + 1) else []
  }

  lemma {:induction false} CStringIs(s: seq<byte>, p: nat, str: seq<byte>)
    requires p + |str| < |s| && s[p + |str|] == NUL
    requires forall i :: 0 <= i < |str| ==> s[p + i] == str[i] && str[i] != NUL
    ensures CString(s, p) == str
    decreases |str|
  {
    if str != [] {
      assert s[p + 0] == str[0];
      CStringIs(s, p + 1, str[1..]);
      assert str == [str[0]] + str[1..];
    }
  }

  /** A piece of text somewhere in memory. */
  predicate Laid(s: seq<byte>, at: nat, piece: seq<byte>) {
    at + |piece| <= |s| && forall i :: 0 <= i < |piece| ==> s[at + i] == piece[i]
  }

  /** The pieces of a request, one behind the other. */
  lemma LaidOut(s: seq<byte>, start: nat, w: Wording)
    requires Laid(s, start, w.Bytes())
    ensures var at := start + |w.lead|;
            && Laid(s, start, w.lead) && Laid(s, at, w.Name())
            && Laid(s, at + |w.Name()|, w.Target()) && Laid(s, at + |w.Name()| + |w.Target()|, [w.sep])
            && Laid(s, at + |w.Name()| + |w.Target()| + 1, w.Behind())
    ensures |w.Bytes()| == |w.lead| + |w.Name()| + |w.Target()| + 1 + |w.Behind()|
  {
    hide Laid, Wording.Target, Wording.Behind;
    var b, n := w.Bytes(), |w.lead| + |w.Name()| + |w.Target()|;
    LaidPart(s, start, b, 0, w.lead);
    LaidPart(s, start, b, |w.lead|, w.Name());
    LaidPart(s, start, b, |w.lead| + |w.Name()|, w.Target());
    LaidPart(s, start, b, n, [w.sep]);
    LaidPart(s, start, b, n + 1, w.Behind());
  }

  lemma LaidPart(s: seq<byte>, start: nat, whole: seq<byte>, off: nat, part: seq<byte>)
    requires Laid(s, start, whole) && off + |part| <= |whole| && whole[off..off + |part|] == part
    ensures Laid(s, start + off, part)
  {
    forall i | 0 <= i < |part|
      ensures s[start + off + i] == part[i]
    {
      assert s[start + (off + i)] == whole[off + i];
    }
  }

  lemma BlankSame(s: seq<byte>, x: nat, piece: seq<byte>, i: nat)
    requires Laid(s, x, piece) && i + 4 <= |piece|
    ensures BlankAt(s, x + i) <==> BlankAt(piece, i)
  {
    assert s[x + i] == piece[i] && s[x + (i + 1)] == piece[i + 1];
    assert s[x + (i + 2)] == piece[i + 2] && s[x + (i + 3)] == piece[i + 3];
  }

  lemma BlankLaid(s: seq<byte>, y: nat)
    requires Laid(s, y, BLANK_LINE)
    ensures BlankAt(s, y)
  {
    var b := BLANK_LINE;
    assert s[y + 0] == b[0] && s[y + 1] == b[1] && s[y + 2] == b[2] && s[y + 3] == b[3];
  }

  /** The search that starts in front of `rest`, or on the NUL before it, ends behind it. */
  lemma HeadersFound(s: seq<byte>, m: Method, url: nat, query: nat, p: nat, x: nat, w: Wording)
    requires w.Valid() && Laid(s, x, w.Behind()) && x + |w.Behind()| <= |s| - 4
    requires p == x || (p + 1 == x && s[p] == NUL)
    ensures ParseHeaders(s, m, url, query, p, x + |w.Behind()|)
              == (s, Parsed(Request(m, url, query, x + |w.rest| + 4, |w.body|)))
    ensures Laid(s, x + |w.rest| + 4, w.body)
  {
    var end, y := x + |w.Behind()|, x + |w.rest|;
    LaidPart(s, x, w.Behind(), |w.rest| + 4, w.body);
    LaidPart(s, x, w.Behind(), 0, w.rest + BLANK_LINE);
    LaidPart(s, x, w.Behind(), |w.rest|, BLANK_LINE);
    forall i | p <= i < y
      ensures !BlankAt(s, i)
    {
      if i >= x {
        BlankSame(s, x, w.rest + BLANK_LINE, i - x);
      }
    }
    BlankLaid(s, y);
    assert BlankLine(s, p, end) == y;
  }

  /** Reading undoes writing: wherever it lies in memory, and whatever is behind it, a request is read as what it
      says. */
  lemma RequestRecovered(s: seq<byte>, start: nat, w: Wording)
    requires w.Valid() && Laid(s, start, w.Bytes())
    requires start + |w.Bytes()| <= |s| - 4 && !IsSpace(s[|s| - 1])
    ensures var (t, outcome) := Parse(s, start, start + |w.Bytes()|);
            Says(t, outcome, w)
  {
    hide Wording.Valid, Wording.Behind, Wording.Target, Wording.Bytes, Laid, ParseUrl, CString, Says;
    LaidOut(s, start, w);
    var p := start + |w.lead|;
    var q := p + |w.Name()|;
    MethodFound(s, start, p, w);
    assert IsSpace(s[q - 1]);
    if w.query.None? {
      PlainTarget(s, q, w);
    } else {
      QueryTarget(s, q, w);
    }
  }

  lemma MethodFound(s: seq<byte>, start: nat, p: nat, w: Wording)
    requires w.Valid() && p == start + |w.lead| && Laid(s, start, w.lead) && Laid(s, p, w.Name())
    requires p + |w.Name()| <= |s| && !IsSpace(s[|s| - 1])
    ensures SkipSpaces(s, start) == p
    ensures w.method_.Get? ==> Starts(s, p, GET)
    ensures w.method_.Post? ==> Starts(s, p, POST) && !Starts(s, p, GET)
    ensures IsSpace(s[p + |w.Name()| - 1])
  {
    var n := w.Name();
    assert s[p + 0] == n[0] && s[p + (|n| - 1)] == n[|n| - 1];
    assert forall i :: start <= i < p ==> s[i] == w.lead[i - start];
    assert s[p..p + |n|] == n;
  }

  /** The outcome says what the wording says. */
  predicate Says(t: seq<byte>, outcome: Outcome, w: Wording) {
    && outcome.Parsed? && outcome.request.method_ == w.method_
    && CString(t, outcome.request.url) == w.url
    && CString(t, outcome.request.query) == (if w.query.Some? then w.query.value else [])
    && outcome.request.bodyLength == |w.body| && Laid(t, outcome.request.body, w.body)
  }

  /** The memory from the target on. */
  predicate TargetLaid(s: seq<byte>, p: nat, w: Wording) {
    && 0 < p <= |s| && IsSpace(s[p - 1]) && !IsSpace(s[|s| - 1])
    && Laid(s, p, w.Target()) && Laid(s, p + |w.Target()|, [w.sep])
    && Laid(s, p + |w.Target()| + 1, w.Behind()) && p + |w.Target()| + 1 + |w.Behind()| <= |s| - 4
  }

  lemma PlainTarget(s: seq<byte>, p: nat, w: Wording)
    requires w.Valid() && w.query.None? && TargetLaid(s, p, w)
    ensures var (t, outcome) := ParseUrl(s, w.method_, p, p + |w.Target()| + 1 + |w.Behind()|);
            Says(t, outcome, w)
  {
    hide Wording.Behind, ParseHeaders, CString;
    var end, u := p + |w.url| + 1 + |w.Behind()|, p + |w.url|;
    assert w.Target() == w.url;
    assert s[u + 0] == [w.sep][0];
    assert forall i :: p <= i < u ==> s[i] == w.url[i - p];
    assert s[p] == w.url[0];
    assert SkipSpaces(s, p) == p;
    assert WordEnd(s, p, end, true) == u;
    var t := s[u := NUL];
    CStringIs(t, p, w.url);
    CStringIs(t, u, []);
    HeadersFound(t, w.method_, p, u, u + 1, u + 1, w);
  }

  lemma QueryLayout(s: seq<byte>, p: nat, w: Wording)
    requires w.query.Some? && TargetLaid(s, p, w)
    ensures var u, v := p + |w.url|, p + |w.Target()|;
            && |w.Target()| == |w.url| + 1 + |w.query.value|
            && Laid(s, p, w.url) && s[u] == QUESTION && Laid(s, u + 1, w.query.value) && s[v] == w.sep
  {
    hide Wording.Behind;
    var target := w.Target();
    LaidPart(s, p, target, 0, w.url);
    LaidPart(s, p, target, |w.url|, [QUESTION]);
    LaidPart(s, p, target, |w.url| + 1, w.query.value);
    assert s[p + |w.url| + 0] == [QUESTION][0] && s[p + |target| + 0] == [w.sep][0];
  }

  /** The two words of a target are found where they are. */
  lemma WordsFound(s: seq<byte>, p: nat, end: nat, w: Wording)
    requires w.Valid() && w.query.Some?
    requires Laid(s, p, w.url) && Laid(s, p + |w.url| + 1, w.query.value)
    requires p + |w.url| + 1 + |w.query.value| < end <= |s| && !IsSpace(s[|s| - 1])
    requires s[p + |w.url|] == QUESTION && s[p + |w.url| + 1 + |w.query.value|] == w.sep
    ensures SkipSpaces(s, p) == p && WordEnd(s, p, end, true) == p + |w.url|
    ensures WordEnd(s, p + |w.url| + 1, end, false) == p + |w.url| + 1 + |w.query.value|
  {
    var u := p + |w.url|;
    assert forall i :: p <= i < u ==> s[i] == w.url[i - p];
    assert forall i :: u + 1 <= i < u + 1 + |w.query.value| ==> s[i] == w.query.value[i - u - 1];
  }

  lemma QueryTarget(s: seq<byte>, p: nat, w: Wording)
    requires w.Valid() && w.query.Some? && TargetLaid(s, p, w)
    ensures var (t, outcome) := ParseUrl(s, w.method_, p, p + |w.Target()| + 1 + |w.Behind()|);
            Says(t, outcome, w)
  {
    hide Wording.Behind, Wording.Target, ParseHeaders, CString;
    QueryLayout(s, p, w);
    var u, v := p + |w.url|, p + |w.Target()|;
    WordsFound(s, p, v + 1 + |w.Behind()|, w);
    var t := s[u := NUL][v := NUL];
    CStringIs(t, p, w.url);
    CStringIs(t, u + 1, w.query.value);
    HeadersFound(t, w.method_, p, u + 1, v, v + 1, w);
  }
}
