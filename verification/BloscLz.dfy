/** The blosclz LZ77 decoder (`crates/oxcdf-hdf5/src/filters.rs`). */
module BloscLz {
  import opened Basics

  /** A literal run, or a match of `length` bytes starting `distance + 1` bytes back.
      The top three bits of the first token's byte are ignored, so a literal carries them as `tag`. */
  datatype Token = Literal(tag: nat, bytes: seq<byte>) | Match(length: nat, distance: nat)

  const ESCAPE: nat := 0x1fff

  // ---- meaning ----

  /** Append `length` bytes, each a copy of the byte `distance + 1` back: a match may overlap what it produces. */
  function Copy(out: seq<byte>, distance: nat, length: nat): (r: seq<byte>)
    requires distance + 1 <= |out|
    ensures |r| == |out| + length && r[..|out|] == out
    decreases length
  {
    if length == 0 then out
    else Copy(out + [out[|out| - (distance + 1)]], distance, length - 1)
  }

  lemma {:induction false} CopyRepeats(out: seq<byte>, distance: nat, length: nat, k: nat)
    requires distance + 1 <= |out| && k < length
    ensures Copy(out, distance, length)[|out| + k] == Copy(out, distance, length)[|out| + k - (distance + 1)]
    decreases length
  {
    var next := out + [out[|out| - (distance + 1)]];
    var r := Copy(out, distance, length);
    assert r[..|next|] == next;
    if k > 0 {
      CopyRepeats(next, distance, length - 1, k - 1);
    } else {
      assert r[|out|] == next[|out|] && r[|out| - (distance + 1)] == next[|out| - (distance + 1)];
    }
  }

  predicate Fits(t: Token, out: seq<byte>) {
    t.Match? ==> t.distance + 1 <= |out|
  }

  function Expand(t: Token, out: seq<byte>): seq<byte>
    requires Fits(t, out)
  {
    match t
    case Literal(_, bytes) => out + bytes
    case Match(length, distance) => Copy(out, distance, length)
  }

  /** Every match of the list points inside what precedes it. */
  predicate AllFit(ts: seq<Token>, out: seq<byte>) {
    ts == [] || (Fits(ts[0], out) && AllFit(ts[1..], Expand(ts[0], out)))
  }

  function ExpandAll(ts: seq<Token>, out: seq<byte>): seq<byte>
    requires AllFit(ts, out)
  {
    if ts == [] then out else ExpandAll(ts[1..], Expand(ts[0], out))
  }

  // ---- meaning, byte by byte ----

  function Length(t: Token): nat {
    if t.Literal? then |t.bytes| else t.length
  }

  /** Where the output of token `i` begins, after `base` bytes that were there before. */
  function Start(base: nat, ts: seq<Token>, i: nat): nat
    requires i <= |ts|
  {
    if i == 0 then base else Start(base, ts, i - 1) + Length(ts[i - 1])
  }

  /** Byte `k` of what a token yields from `start` on is byte `k` of a literal, or for a match the byte `distance + 1`
      before it. */
  ghost predicate Yields(t: Token, k: nat, start: nat, r: seq<byte>) {
    start + k < |r|
    && match t
       case Literal(_, bytes) => k < |bytes| && r[start + k] == bytes[k]
       case Match(_, distance) => distance + 1 <= start + k && r[start + k] == r[start + k - (distance + 1)]
  }

  /** Every token yields its bytes in turn, after what was there before, and nothing follows. */
  ghost predicate Means(ts: seq<Token>, out: seq<byte>, r: seq<byte>) {
    |r| == Start(|out|, ts, |ts|) >= |out| && r[..|out|] == out
    && forall i, k :: 0 <= i < |ts| && 0 <= k < Length(ts[i]) ==> Yields(ts[i], k, Start(|out|, ts, i), r)
  }

  lemma {:induction false} StartTail(base: nat, ts: seq<Token>, i: nat)
    requires 0 < i <= |ts|
    ensures Start(base, ts, i) == Start(base + Length(ts[0]), ts[1..], i - 1)
  {
    if i > 1 {
      StartTail(base, ts, i - 1);
    }
  }

  /** One token appends its bytes. */
  lemma {:induction false} ExpandYields(t: Token, out: seq<byte>)
    requires Fits(t, out)
    ensures var r := Expand(t, out);
            && |r| == |out| + Length(t) && r[..|out|] == out
            && forall k :: 0 <= k < Length(t) ==> Yields(t, k, |out|, r)
  {
    hide Copy;
    if t.Match? {
      forall k | 0 <= k < t.length ensures Yields(t, k, |out|, Expand(t, out)) {
        CopyRepeats(out, t.distance, t.length, k);
      }
    }
  }

  /** What a token yielded stays when more is appended. */
  lemma {:induction false} YieldsStill(t: Token, k: nat, start: nat, r: seq<byte>, longer: seq<byte>)
    requires Yields(t, k, start, r) && |r| <= |longer| && longer[..|r|] == r
    ensures Yields(t, k, start, longer)
  {
    var at := start + k;
    assert longer[at] == longer[..|r|][at];
    if t.Match? {
      assert longer[at - (t.distance + 1)] == longer[..|r|][at - (t.distance + 1)];
    }
  }

  /** The expansion of a token list is what its tokens mean. */
  lemma {:induction false} ExpandMeans(ts: seq<Token>, out: seq<byte>)
    requires AllFit(ts, out)
    ensures Means(ts, out, ExpandAll(ts, out))
  {
    hide Expand;
    hide Yields;
    if ts != [] {
      var mid, rest, r := Expand(ts[0], out), ts[1..], ExpandAll(ts, out);
      ExpandYields(ts[0], out);
      ExpandMeans(rest, mid);
      StartTail(|out|, ts, |ts|);
      assert r[..|out|] == r[..|mid|][..|out|];
      forall i, k | 0 <= i < |ts| && 0 <= k < Length(ts[i]) ensures Yields(ts[i], k, Start(|out|, ts, i), r) {
        if i == 0 {
          YieldsStill(ts[0], k, |out|, mid, r);
        } else {
          StartTail(|out|, ts, i);
          assert Yields(rest[i - 1], k, Start(|mid|, rest, i - 1), r);
        }
      }
    }
  }

  /** A list expands exactly when every match begins inside the output before it. */
  lemma {:induction false} AllFitIff(ts: seq<Token>, out: seq<byte>)
    ensures AllFit(ts, out) <==> forall i :: 0 <= i < |ts| && ts[i].Match? ==> ts[i].distance + 1 <= Start(|out|, ts, i)
  {
    hide Expand;
    if ts != [] && Fits(ts[0], out) {
      var mid, rest := Expand(ts[0], out), ts[1..];
      ExpandYields(ts[0], out);
      AllFitIff(rest, mid);
      forall i | 0 < i < |ts| ensures Start(|out|, ts, i) == Start(|mid|, rest, i - 1) && ts[i] == rest[i - 1] {
        StartTail(|out|, ts, i);
      }
      forall j | 0 <= j < |rest| ensures rest[j] == ts[j + 1] && Start(|out|, ts, j + 1) == Start(|mid|, rest, j) {
        StartTail(|out|, ts, j + 1);
      }
    } else if ts != [] {
      assert ts[0].Match? && ts[0].distance + 1 > Start(|out|, ts, 0);
    }
  }

  // ---- encoding ----

  predicate IsToken(t: Token, first: bool) {
    match t
    case Literal(tag, bytes) => 1 <= |bytes| <= 32 && tag < 8 && (!first ==> tag == 0)
    case Match(length, distance) => !first && length >= 3 && distance <= ESCAPE + 0xffff
  }

  predicate AreTokens(ts: seq<Token>, first: bool) {
    ts == [] || (IsToken(ts[0], first) && AreTokens(ts[1..], false))
  }

  /** A length beyond the three-bit field: 255 at a time, ended by a smaller byte. */
  function Chain(n: nat): seq<byte> {
    if n < 255 then [n] else [255] + Chain(n - 255)
  }

  function LengthField(length: nat): nat
    requires length >= 3
  {
    Min(length - 2, 7)
  }

  function EncodeDistance(distance: nat): (r: (nat, seq<byte>))
    requires distance <= ESCAPE + 0xffff
    ensures r.0 < 32
  {
    if distance < ESCAPE then (distance / 256, [distance % 256])
    else (31, [255, (distance - ESCAPE) / 256, (distance - ESCAPE) % 256])
  }

  function Encode(t: Token, first: bool): (s: seq<byte>)
    requires IsToken(t, first)
    ensures |s| >= 2
  {
    match t
    case Literal(tag, bytes) => [tag * 32 + (|bytes| - 1)] + bytes
    case Match(length, distance) =>
      var (high, low) := EncodeDistance(distance);
      [LengthField(length) * 32 + high] + (if length >= 9 then Chain(length - 9) else []) + low
  }

  function EncodeAll(ts: seq<Token>, first: bool): seq<byte>
    requires AreTokens(ts, first)
  {
    if ts == [] then [] else Encode(ts[0], first) + EncodeAll(ts[1..], false)
  }

  lemma {:induction false} ChainIs(n: nat) returns (full: nat)
    ensures |Chain(n)| == full + 1 && n == 255 * full + Chain(n)[full] as int && Chain(n)[full] < 255
    ensures forall j :: 0 <= j < full ==> Chain(n)[j] == 255
  {
    if n < 255 {
      full := 0;
    } else {
      var rest := ChainIs(n - 255);
      full := rest + 1;
    }
  }

  /** A literal on the wire: three ignored bits, the count less one, the bytes. */
  lemma {:induction false} LiteralIs(tag: nat, bytes: seq<byte>, first: bool)
    requires 1 <= |bytes| <= 32 && tag < 8 && (!first ==> tag == 0)
    ensures IsToken(Literal(tag, bytes), first)
    ensures var e := Encode(Literal(tag, bytes), first);
            |e| == 1 + |bytes| && e[0] as int / 32 == tag && e[0] as int % 32 + 1 == |bytes| && e[1..] == bytes
  {
  }

  /** A match on the wire: the length less two in three bits, or seven and then its excess over nine in bytes of 255 and a
      smaller one; the distance in thirteen bits, or all ones and then the excess in two bytes. `at` is where its low byte is. */
  lemma {:induction false} MatchIs(length: nat, distance: nat) returns (at: nat)
    requires length >= 3 && distance <= 0x1fff + 0xffff
    ensures IsToken(Match(length, distance), false)
    ensures var e := Encode(Match(length, distance), false);
            && 1 <= at < |e| && e[0] as int / 32 > 0
            && (length < 9 ==> at == 1 && e[0] as int / 32 + 2 == length)
            && (length >= 9 ==>
                  && at >= 2 && e[0] as int / 32 == 7 && length == 9 + 255 * (at - 2) + e[at - 1] as int && e[at - 1] < 255
                  && forall j :: 1 <= j < at - 1 ==> e[j] == 255)
            && (distance < 0x1fff ==> |e| == at + 1 && e[0] as int % 32 * 256 + e[at] as int == distance)
            && (distance >= 0x1fff ==>
                  && |e| == at + 3 && e[0] as int % 32 * 256 + e[at] as int == 0x1fff
                  && distance == 0x1fff + e[at + 1] as int * 256 + e[at + 2] as int)
  {
    hide Chain;
    var (high, low) := EncodeDistance(distance);
    var chain: seq<byte> := if length >= 9 then Chain(length - 9) else [];
    var e := Encode(Match(length, distance), false);
    assert e == [LengthField(length) * 32 + high] + chain + low;
    at := 1 + |chain|;
    if length >= 9 {
      var full := ChainIs(length - 9);
      assert forall j :: 1 <= j < at ==> e[j] == chain[j - 1];
    }
    assert e[at..] == low;
    assert e[at] == low[0];
    if distance >= 0x1fff {
      assert e[at + 1] == low[1] && e[at + 2] == low[2];
    }
  }

  // ---- the decoder as a function of the remaining bytes ----

  /** The sum of a chain of length bytes, and how many there are. */
  function ReadChain(s: seq<byte>): (r: Option<(nat, nat)>)
    ensures r.Some? ==> 1 <= r.value.1 <= |s|
  {
    if s == [] then None
    else if s[0] != 255 then Some((s[0] as int, 1))
    else
      match ReadChain(s[1..])
      case None => None
      case Some((n, used)) => Some((n + 255, used + 1))
  }

  function ReadDistance(high: nat, s: seq<byte>): (r: Option<(nat, nat)>)
    requires high < 32
    ensures r.Some? ==> 1 <= r.value.1 <= |s|
  {
    if s == [] then None
    else
      var d := high * 256 + s[0] as int;
      if d != ESCAPE then Some((d, 1))
      else if |s| < 3 then None
      else Some((d + (s[1] as int) * 256 + s[2] as int, 3))
  }

  /** The first token of `s`, and its length in bytes. */
  function Next(s: seq<byte>, first: bool): (r: Option<(Token, nat)>)
    requires s != []
    ensures r.Some? ==> 2 <= r.value.1 <= |s|
  {
    var token := s[0] as int;
    if first || token / 32 == 0 then
      var count := token % 32 + 1;
      if 1 + count > |s| then None else Some((Literal(token / 32, s[1..1 + count]), 1 + count))
    else
      var extra := if token / 32 == 7 then ReadChain(s[1..]) else Some((0, 0));
      match extra
      case None => None
      case Some((n, used)) =>
        match ReadDistance(token % 32, s[1 + used..])
        case None => None
        case Some((d, more)) => Some((Match(token / 32 + n + 2, d), 1 + used + more))
  }

  function Decode(s: seq<byte>, out: seq<byte>, first: bool): Result<seq<byte>> {
    if s == [] then Ok(out)
    else
      match Next(s, first)
      case None => Err(Malformed)
      case Some((t, n)) => if Fits(t, out) then Decode(s[n..], Expand(t, out), false) else Err(Malformed)
  }

  // ---- decoding inverts encoding ----

  lemma {:induction false} ChainReads(n: nat, rest: seq<byte>)
    ensures ReadChain(Chain(n) + rest) == Some((n, |Chain(n)|))
  {
    if n >= 255 {
      ChainReads(n - 255, rest);
      assert (Chain(n) + rest)[1..] == Chain(n - 255) + rest;
    }
  }

  lemma {:induction false} DistanceReads(distance: nat, rest: seq<byte>)
    requires distance <= ESCAPE + 0xffff
    ensures var (high, low) := EncodeDistance(distance);
            ReadDistance(high, low + rest) == Some((distance, |low|))
  {
    var (high, low) := EncodeDistance(distance);
    assert (low + rest)[0] == low[0];
    if distance >= ESCAPE {
      assert (low + rest)[1] == low[1] && (low + rest)[2] == low[2];
    }
  }

  lemma {:induction false} TokenReads(t: Token, first: bool, rest: seq<byte>)
    requires IsToken(t, first)
    ensures Next(Encode(t, first) + rest, first) == Some((t, |Encode(t, first)|))
  {
    match t
    case Literal(tag, bytes) =>
      var s := Encode(t, first) + rest;
      assert s[0] == tag * 32 + (|bytes| - 1);
      assert s[1..1 + |bytes|] == bytes;
    case Match(length, distance) =>
      MatchReads(length, distance, rest);
  }

  lemma {:induction false} MatchReads(length: nat, distance: nat, rest: seq<byte>)
    requires IsToken(Match(length, distance), false)
    ensures var e := Encode(Match(length, distance), false);
            Next(e + rest, false) == Some((Match(length, distance), |e|))
  {
    hide Chain;
    hide ReadChain;
    hide EncodeDistance;
    hide ReadDistance;
    var (high, low) := EncodeDistance(distance);
    var chain: seq<byte> := if length >= 9 then Chain(length - 9) else [];
    var head := LengthField(length) * 32 + high;
    var s := Encode(Match(length, distance), false) + rest;
    assert head / 32 == LengthField(length) && head % 32 == high;
    assert s == [head] + (chain + (low + rest));
    assert s[1..] == chain + (low + rest);
    assert s[1 + |chain|..] == low + rest;
    if length >= 9 {
      ChainReads(length - 9, low + rest);
    }
    DistanceReads(distance, rest);
  }

  /** The encoding of any token list decodes to its expansion. */
  lemma {:induction false} DecodeEncoded(ts: seq<Token>, out: seq<byte>, first: bool)
    requires AreTokens(ts, first) && AllFit(ts, out)
    ensures Decode(EncodeAll(ts, first), out, first) == Ok(ExpandAll(ts, out))
  {
    if ts != [] {
      var e, rest := Encode(ts[0], first), EncodeAll(ts[1..], false);
      TokenReads(ts[0], first, rest);
      assert (e + rest)[|e|..] == rest;
      DecodeEncoded(ts[1..], Expand(ts[0], out), false);
    }
  }

  // ---- and only encodings decode ----

  lemma {:induction false} ChainIsEncoded(s: seq<byte>)
    requires ReadChain(s).Some?
    ensures s[..ReadChain(s).value.1] == Chain(ReadChain(s).value.0)
  {
    if s[0] == 255 {
      ChainIsEncoded(s[1..]);
      var (n, used) := ReadChain(s[1..]).value;
      assert s[..used + 1] == [s[0]] + s[1..][..used];
    }
  }

  lemma {:induction false} DistanceIsEncoded(high: nat, s: seq<byte>)
    requires high < 32 && ReadDistance(high, s).Some?
    ensures var (d, used) := ReadDistance(high, s).value;
            d <= ESCAPE + 0xffff && EncodeDistance(d) == (high, s[..used])
  {
    var (d, used) := ReadDistance(high, s).value;
    if used == 1 {
      assert s[..1] == [s[0]];
    } else {
      assert s[..3] == [s[0], s[1], s[2]];
    }
  }

  lemma {:induction false} TokenIsEncoded(s: seq<byte>, first: bool)
    requires s != [] && Next(s, first).Some?
    ensures var (t, n) := Next(s, first).value;
            IsToken(t, first) && Encode(t, first) == s[..n]
  {
    hide Chain;
    var token := s[0] as int;
    var (t, n) := Next(s, first).value;
    if t.Literal? {
      assert s[..n] == [s[0]] + s[1..n];
    } else {
      var used := 0;
      if token / 32 == 7 {
        ChainIsEncoded(s[1..]);
        used := ReadChain(s[1..]).value.1;
      }
      DistanceIsEncoded(token % 32, s[1 + used..]);
      assert s[..n] == [s[0]] + s[1..][..used] + s[1 + used..][..n - 1 - used];
    }
  }

  /** Whatever decodes is the encoding of a token list, and its expansion is the answer. */
  lemma {:induction false} DecodedIsEncoded(s: seq<byte>, out: seq<byte>, first: bool) returns (ts: seq<Token>)
    requires Decode(s, out, first).Ok?
    ensures AreTokens(ts, first) && AllFit(ts, out)
    ensures EncodeAll(ts, first) == s && ExpandAll(ts, out) == Decode(s, out, first).value
    decreases |s|
  {
    hide Next;
    hide Encode;
    hide Expand;
    hide IsToken;
    if s == [] {
      ts := [];
    } else {
      TokenIsEncoded(s, first);
      var (t, n) := Next(s, first).value;
      var rest := DecodedIsEncoded(s[n..], Expand(t, out), false);
      ts := [t] + rest;
      assert ts[1..] == rest;
      assert s == s[..n] + s[n..];
    }
  }

  /** A block decodes exactly when it is the encoding of a well-formed token list. */
  lemma {:induction false} DecodesIff(s: seq<byte>)
    ensures Decode(s, [], true).Ok? <==> exists ts :: AreTokens(ts, true) && AllFit(ts, []) && EncodeAll(ts, true) == s
  {
    if Decode(s, [], true).Ok? {
      var ts := DecodedIsEncoded(s, [], true);
    }
    if exists ts :: AreTokens(ts, true) && AllFit(ts, []) && EncodeAll(ts, true) == s {
      var ts :| AreTokens(ts, true) && AllFit(ts, []) && EncodeAll(ts, true) == s;
      DecodeEncoded(ts, [], true);
    }
  }

  // ---- the decoder ----

  /** What the bytes of a block stand for: the tokens they encode, each yielding its bytes in turn. */
  method Unblosclz(data: seq<byte>) returns (r: Result<seq<byte>>, ghost tokens: seq<Token>)
    ensures r == Decode(data, [], true)
    ensures r.Ok? ==> AreTokens(tokens, true) && EncodeAll(tokens, true) == data && Means(tokens, [], r.value)
    ensures r.Err? ==> forall ts: seq<Token> :: AreTokens(ts, true) && EncodeAll(ts, true) == data ==>
              exists i :: 0 <= i < |ts| && ts[i].Match? && ts[i].distance + 1 > Start(0, ts, i)
  {
    r := DecodeLoop(data);
    tokens := Justify(data);
  }

  lemma {:induction false} Justify(data: seq<byte>) returns (tokens: seq<Token>)
    ensures Decode(data, [], true).Ok? ==>
              AreTokens(tokens, true) && EncodeAll(tokens, true) == data && Means(tokens, [], Decode(data, [], true).value)
    ensures Decode(data, [], true).Err? ==> forall ts: seq<Token> :: AreTokens(ts, true) && EncodeAll(ts, true) == data ==>
              exists i :: 0 <= i < |ts| && ts[i].Match? && ts[i].distance + 1 > Start(0, ts, i)
  {
    hide Decode;
    hide Means;
    tokens := [];
    if Decode(data, [], true).Ok? {
      tokens := DecodedIsEncoded(data, [], true);
      ExpandMeans(tokens, []);
    } else {
      forall ts: seq<Token> | AreTokens(ts, true) && EncodeAll(ts, true) == data
        ensures exists i :: 0 <= i < |ts| && ts[i].Match? && ts[i].distance + 1 > Start(0, ts, i)
      {
        AllFitIff(ts, []);
        if AllFit(ts, []) {
          DecodeEncoded(ts, [], true);
        }
      }
    }
  }

  /** The loop over the block. */
  method DecodeLoop(data: seq<byte>) returns (r: Result<seq<byte>>)
    ensures r == Decode(data, [], true)
  {
    hide Next;
    hide Copy;
    hide Decode;
    var out: seq<byte> := [];
    var pos := 0;
    var first := true;
    assert data[0..] == data;
    while pos < |data|
      invariant 0 <= pos <= |data|
      invariant Decode(data, [], true) == Decode(data[pos..], out, first)
      decreases |data| - pos
    {
      ghost var s, before := data[pos..], out;
      var token := data[pos] as int;
      if first || token / 32 == 0 {
        var count := token % 32 + 1;
        LiteralStep(s, first);
        pos := pos + 1;
        if pos + count > |data| {
          BadToken(s, out, first);
          return Err(Malformed);
        }
        assert s[1..1 + count] == data[pos..pos + count];
        DecodeStep(s, out, first, Literal(token / 32, data[pos..pos + count]), 1 + count);
        SuffixStep(data, pos - 1, pos + count);
        out := out + data[pos..pos + count];
        pos := pos + count;
        first := false;
        continue;
      }
      var length, distance, end := ReadMatch(data, pos);
      if end == pos || |out| < distance + 1 {
        BadToken(s, out, first);
        return Err(Malformed);
      }
      DecodeStep(s, out, false, Match(length, distance), end - pos);
      SuffixStep(data, pos, end);
      pos := end;
      out := CopyMatch(out, distance, length);
    }
    assert data[pos..] == [];
    EmptyDecodes(out, first);
    return Ok(out);
  }

  lemma {:induction false} SuffixStep(data: seq<byte>, a: nat, b: nat)
    requires a <= b <= |data|
    ensures data[a..][b - a..] == data[b..]
  {
  }

  lemma {:induction false} EmptyDecodes(out: seq<byte>, first: bool)
    ensures Decode([], out, first) == Ok(out)
  {
  }

  lemma {:induction false} BadToken(s: seq<byte>, out: seq<byte>, first: bool)
    requires s != [] && (Next(s, first).None? || !Fits(Next(s, first).value.0, out))
    ensures Decode(s, out, first) == Err(Malformed)
  {
  }

  lemma {:induction false} DecodeStep(s: seq<byte>, out: seq<byte>, first: bool, t: Token, n: nat)
    requires s != [] && Next(s, first) == Some((t, n)) && Fits(t, out)
    ensures n <= |s| && Decode(s, out, first) == Decode(s[n..], Expand(t, out), false)
  {
  }

  lemma {:induction false} LiteralStep(s: seq<byte>, first: bool)
    requires s != [] && (first || (s[0] as int) / 32 == 0)
    ensures var count := (s[0] as int) % 32 + 1;
            Next(s, first) == if 1 + count > |s| then None else Some((Literal((s[0] as int) / 32, s[1..1 + count]), 1 + count))
  {
  }

  /** Read a match token at `pos`; `end == pos` reports that the block ends inside it. */
  method ReadMatch(data: seq<byte>, pos: nat) returns (length: nat, distance: nat, end: nat)
    requires pos < |data| && (data[pos] as int) / 32 != 0
    ensures end == pos || pos < end <= |data|
    ensures Next(data[pos..], false) == if end == pos then None else Some((Match(length, distance), end - pos))
  {
    hide ReadChain;
    ghost var s := data[pos..];
    var token := data[pos] as int;
    length := token / 32;
    distance := 0;
    var at := pos + 1;
    if length == 7 {
      var extra, used := SumChain(data, at);
      assert s[1..] == data[at..];
      if used == 0 {
        return length, distance, pos;
      }
      length := length + extra;
      at := at + used;
    }
    length := length + 2;
    assert s[at - pos..] == data[at..];
    if at >= |data| {
      return length, distance, pos;
    }
    distance := token % 32 * 256 + data[at] as int;
    at := at + 1;
    if distance == 0x1fff {
      if at + 1 >= |data| {
        return length, distance, pos;
      }
      distance := distance + (data[at] as int) * 256 + data[at + 1] as int;
      at := at + 2;
    }
    end := at;
  }

  /** Add up length bytes until one is not 255; `used == 0` reports that the block ends first. */
  method SumChain(data: seq<byte>, pos: nat) returns (total: nat, used: nat)
    requires pos <= |data|
    ensures pos + used <= |data|
    ensures ReadChain(data[pos..]) == if used == 0 then None else Some((total, used))
  {
    total, used := 0, 0;
    while true
      invariant pos + used <= |data|
      invariant ReadChain(data[pos..]) == Longer(ReadChain(data[pos + used..]), total, used)
      decreases |data| - (pos + used)
    {
      if pos + used >= |data| {
        return 0, 0;
      }
      var extra := data[pos + used] as int;
      assert data[pos + used..][1..] == data[pos + used + 1..];
      used := used + 1;
      total := total + extra;
      if extra != 255 {
        return;
      }
    }
  }

  ghost function Longer(r: Option<(nat, nat)>, total: nat, used: nat): Option<(nat, nat)> {
    match r
    case None => None
    case Some((n, k)) => Some((n + total, k + used))
  }

  /** The source of a match may run into its own output, so each byte is appended before the next is looked up. */
  method CopyMatch(out: seq<byte>, distance: nat, length: nat) returns (r: seq<byte>)
    requires distance + 1 <= |out|
    ensures r == Copy(out, distance, length)
  {
    r := out;
    var start := |out| - (distance + 1);
    for i := 0 to length
      invariant |r| == |out| + i
      invariant Copy(out, distance, length) == Copy(r, distance, length - i)
    {
      var byte := r[start + i];
      r := r + [byte];
    }
  }
}
