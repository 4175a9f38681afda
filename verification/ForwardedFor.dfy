/**
 Client address resolution in cmd/bridge/proxy.go: the right-to-left walk over a forwarded-for
 list. net.ParseIP is an arbitrary function of the text; a trusted network is a range of parsed
 addresses.
 */
module ForwardedFor {
  import opened Common

  const MAX_HOPS := 32

  datatype Cidr = Cidr(lo: nat, hi: nat)

  datatype Config = Config(parse: string -> Option<nat>, proxies: seq<Cidr>, realIPHeader: string)

  function Covers(c: Cidr, a: nat): bool {
    c.lo <= a <= c.hi
  }

  predicate Parses(cfg: Config, s: string) {
    cfg.parse(s).Some?
  }

  /** s is an address inside a declared proxy network. */
  predicate Trusted(cfg: Config, s: string) {
    Parses(cfg, s) && exists i :: 0 <= i < |cfg.proxies| && Covers(cfg.proxies[i], cfg.parse(s).value)
  }

  /** The same, over the bounds of the networks. */
  ghost predicate InNetwork(cfg: Config, s: string) {
    cfg.parse(s).Some?
    && exists i :: 0 <= i < |cfg.proxies| && cfg.proxies[i].lo <= cfg.parse(s).value <= cfg.proxies[i].hi
  }

  lemma TrustedIsInNetwork(cfg: Config, s: string)
    ensures Trusted(cfg, s) <==> InNetwork(cfg, s)
  {
    if InNetwork(cfg, s) {
      var i :| 0 <= i < |cfg.proxies| && cfg.proxies[i].lo <= cfg.parse(s).value <= cfg.proxies[i].hi;
      assert Covers(cfg.proxies[i], cfg.parse(s).value);
    }
  }

  // ------------------------------------------------------------------ text

  predicate IsSpace(c: char) {
    c == ' ' || c == '\t' || c == '\n' || c == '\r' || c as int == 11 || c as int == 12
  }

  function TrimLeft(s: string): string {
    if s != "" && IsSpace(s[0]) then TrimLeft(s[1..]) else s
  }

  function TrimRight(s: string): string {
    if s != "" && IsSpace(s[|s| - 1]) then TrimRight(s[..|s| - 1]) else s
  }

  function Trim(s: string): string {
    TrimRight(TrimLeft(s))
  }

  /** Nothing but tab, line feed, vertical tab, form feed, carriage return and space. */
  ghost predicate Blank(s: string) {
    forall i :: 0 <= i < |s| ==> 9 <= s[i] as int <= 13 || s[i] as int == 32
  }

  /** Text that neither begins nor ends with a blank. */
  ghost predicate Bare(w: string) {
    w != "" ==> !Blank([w[0]]) && !Blank([w[|w| - 1]])
  }

  lemma {:induction false} TrimLeftDrops(l: string, rest: string)
    requires Blank(l) && (rest != "" ==> !Blank([rest[0]]))
    ensures TrimLeft(l + rest) == rest
  {
    if l == "" {
      assert l + rest == rest;
    } else {
      assert (l + rest)[0] == l[0] && (l + rest)[1..] == l[1..] + rest;
      TrimLeftDrops(l[1..], rest);
    }
  }

  lemma {:induction false} TrimRightDrops(w: string, r: string, s: string)
    requires Blank(r) && Bare(w) && s == w + r
    ensures TrimRight(s) == w
    decreases |r|
  {
    if r == "" {
      assert s == w;
    } else {
      var n := |r| - 1;
      assert s[|s| - 1] == r[n] && IsSpace(r[n]);
      TrimRightDrops(w, r[..n], s[..|s| - 1]);
    }
  }

  /** Trimming takes the blanks around a word and nothing else. */
  lemma TrimIs(l: string, w: string, r: string)
    requires Blank(l) && Blank(r) && Bare(w)
    ensures Trim(l + w + r) == w
  {
    if w == "" {
      assert l + w + r == (l + r) + "";
      TrimLeftDrops(l + r, "");
    } else {
      assert l + w + r == l + (w + r);
      TrimLeftDrops(l, w + r);
      TrimRightDrops(w, r, w + r);
    }
  }

  /** strings.Split(s, ","). */
  function Split(s: string): (r: seq<string>)
    ensures |r| >= 1
  {
    if s == "" then [""]
    else if s[0] == ',' then [""] + Split(s[1..])
    else var r := Split(s[1..]); [[s[0]] + r[0]] + r[1..]
  }

  /** strings.Join(lines, ","). */
  function Join(lines: seq<string>): string {
    if lines == [] then "" else if |lines| == 1 then lines[0] else lines[0] + "," + Join(lines[1..])
  }

  /** Every hop of every field line, in order. */
  function Hops(lines: seq<string>): seq<string> {
    if lines == [] then [] else Split(lines[0]) + Hops(lines[1..])
  }

  lemma {:induction false} SplitConcat(a: string, b: string, s: string)
    requires s == a + "," + b
    ensures Split(s) == Split(a) + Split(b)
  {
    if a == "" {
      assert s[0] == ',' && s[1..] == b;
    } else {
      SplitConcat(a[1..], b, s[1..]);
      PrependToFirst(a[0], Split(a[1..]), Split(b));
    }
  }

  lemma PrependToFirst(c: char, xs: seq<string>, ys: seq<string>)
    requires xs != []
    ensures [[c] + (xs + ys)[0]] + (xs + ys)[1..] == [[c] + xs[0]] + xs[1..] + ys
    ensures [""] + (xs + ys) == [""] + xs + ys
  {
  }

  /** However the peer spreads the list over field lines, joining and splitting gives every hop in order. */
  lemma {:induction false} SplitJoin(lines: seq<string>)
    requires lines != []
    ensures Split(Join(lines)) == Hops(lines)
  {
    if |lines| == 1 {
      assert Hops(lines[1..]) == [] && Split(lines[0]) + [] == Split(lines[0]);
    } else {
      SplitConcat(lines[0], Join(lines[1..]), Join(lines));
      SplitJoin(lines[1..]);
    }
  }

  lemma {:induction false} SplitHop(h: string)
    requires ',' !in h
    ensures Split(h) == [h]
  {
    if h != "" {
      SplitHop(h[1..]);
      assert [h[0]] + h[1..] == h;
    }
  }

  lemma {:induction false} HopsOfHops(hs: seq<string>)
    requires forall i :: 0 <= i < |hs| ==> ',' !in hs[i]
    ensures Hops(hs) == hs
  {
    if hs != [] {
      SplitHop(hs[0]);
      HopsOfHops(hs[1..]);
      assert [hs[0]] + hs[1..] == hs;
    }
  }

  /** Splitting undoes joining, for every list of hops without commas. */
  lemma SplitInverts(hs: seq<string>)
    requires hs != [] && forall i :: 0 <= i < |hs| ==> ',' !in hs[i]
    ensures Split(Join(hs)) == hs
  {
    SplitJoin(hs);
    HopsOfHops(hs);
  }

  lemma {:induction false} HopsConcat(xs: seq<string>, ys: seq<string>)
    ensures Hops(xs + ys) == Hops(xs) + Hops(ys)
  {
    if xs == [] {
      assert xs + ys == ys;
    } else {
      assert (xs + ys)[1..] == xs[1..] + ys;
      HopsConcat(xs[1..], ys);
    }
  }

  // ------------------------------------------------------------------ the walk

  /** What the walk makes of a list of hops, the rightmost first. */
  function Walk(cfg: Config, hops: seq<string>): string {
    if hops == [] then ""
    else
      var candidate := Trim(hops[|hops| - 1]);
      if Trusted(cfg, candidate) then Walk(cfg, hops[..|hops| - 1])
      else if Parses(cfg, candidate) then candidate
      else ""
  }

  function LastHops(hops: seq<string>): seq<string> {
    if |hops| > MAX_HOPS then hops[|hops| - MAX_HOPS..] else hops
  }

  method IsTrustedProxy(cfg: Config, ip: string) returns (trusted: bool)
    ensures trusted <==> Trusted(cfg, ip)
    ensures trusted <==> InNetwork(cfg, ip)
  {
    TrustedIsInNetwork(cfg, ip);
    if |cfg.proxies| == 0 {
      return false;
    }
    var parsed := cfg.parse(ip);
    if parsed.None? {
      return false;
    }
    for i := 0 to |cfg.proxies|
      invariant forall j :: 0 <= j < i ==> !Covers(cfg.proxies[j], parsed.value)
    {
      if Covers(cfg.proxies[i], parsed.value) {
        return true;
      }
    }
    return false;
  }

  method RightmostUntrusted(cfg: Config, value: string) returns (ip: string)
    ensures ip == Walk(cfg, LastHops(Split(value)))
  {
    var parts := LastHops(Split(value));
    var i := |parts|;
    assert parts[..i] == parts;
    while i > 0
      invariant 0 <= i <= |parts|
      invariant Walk(cfg, parts) == Walk(cfg, parts[..i])
    {
      i := i - 1;
      assert parts[..i + 1][..i] == parts[..i];
      var candidate := Trim(parts[i]);
      var trusted := IsTrustedProxy(cfg, candidate);
      if !trusted {
        if cfg.parse(candidate).Some? {
          return candidate;
        }
        break;
      }
    }
    return "";
  }

  /** Hops a trusted proxy put there are skipped. */
  lemma {:induction false} WalkSkipsTrusted(cfg: Config, front: seq<string>, suffix: seq<string>)
    requires forall i :: 0 <= i < |suffix| ==> Trusted(cfg, Trim(suffix[i]))
    ensures Walk(cfg, front + suffix) == Walk(cfg, front)
  {
    if suffix == [] {
      assert front + suffix == front;
    } else {
      var n := |suffix| - 1;
      assert (front + suffix)[..|front + suffix| - 1] == front + suffix[..n];
      WalkSkipsTrusted(cfg, front, suffix[..n]);
    }
  }

  /** The walk answers with the closest hop no trusted proxy vouches for, or with nothing if that hop is not an address;
      what the client wrote to its left has no say. */
  lemma WalkFindsClosestUntrusted(cfg: Config, prefix: seq<string>, c: string, suffix: seq<string>)
    requires |suffix| < MAX_HOPS && forall i :: 0 <= i < |suffix| ==> Trusted(cfg, Trim(suffix[i]))
    requires !Trusted(cfg, Trim(c))
    ensures Walk(cfg, LastHops(prefix + [c] + suffix)) == if Parses(cfg, Trim(c)) then Trim(c) else ""
  {
    var hops := prefix + [c] + suffix;
    var kept := if |hops| > MAX_HOPS then prefix[|hops| - MAX_HOPS..] else prefix;
    assert LastHops(hops) == kept + [c] + suffix;
    WalkSkipsTrusted(cfg, kept + [c], suffix);
  }

  /** Whatever it answers is an address outside every trusted network. */
  lemma {:induction false} WalkIsSafe(cfg: Config, hops: seq<string>)
    ensures Walk(cfg, hops) == "" || (Parses(cfg, Walk(cfg, hops)) && !Trusted(cfg, Walk(cfg, hops)))
  {
    if hops != [] {
      WalkIsSafe(cfg, hops[..|hops| - 1]);
    }
  }

  // ------------------------------------------------------------------ clientIP

  function JoinHeader(lines: seq<string>): string {
    if lines == [] then "" else Join(lines)
  }

  /** Joining the lines first changes nothing, and an empty header says nothing. */
  lemma HeaderHops(cfg: Config, lines: seq<string>)
    ensures JoinHeader(lines) != "" ==> Found(cfg, lines) == Walk(cfg, LastHops(Split(JoinHeader(lines))))
    ensures JoinHeader(lines) == "" ==> Found(cfg, lines) == ""
  {
    if lines != [] {
      SplitJoin(lines);
      if JoinHeader(lines) == "" {
        var one := [""];
        assert Hops(lines) == one == LastHops(one);
        assert one[..|one| - 1] == [] && Trim(one[0]) == "";
        assert Walk(cfg, one) == "";
      }
    }
  }

  /** What a header's field lines say: nothing, or the closest untrusted hop among them. */
  function Found(cfg: Config, lines: seq<string>): string {
    Walk(cfg, LastHops(Hops(lines)))
  }

  /** clientIP. headers gives the field lines of a header; peer is the host part of the remote address. */
  method ClientIP(cfg: Config, headers: string -> seq<string>, peer: string) returns (ip: string)
    ensures ip == peer || (Trusted(cfg, peer) && Parses(cfg, ip) && !Trusted(cfg, ip))
    ensures !Trusted(cfg, peer) ==> ip == peer
    ensures Trusted(cfg, peer) ==>
      ip == (var named := if cfg.realIPHeader == "" then "" else Found(cfg, headers(cfg.realIPHeader));
             var forwarded := Found(cfg, headers("X-Forwarded-For"));
             if named != "" then named else if forwarded != "" then forwarded else peer)
  {
    var trusted := IsTrustedProxy(cfg, peer);
    if cfg.realIPHeader != "" {
      var value := JoinHeader(headers(cfg.realIPHeader));
      HeaderHops(cfg, headers(cfg.realIPHeader));
      if value != "" && trusted {
        var found := RightmostUntrusted(cfg, value);
        WalkIsSafe(cfg, LastHops(Split(value)));
        if found != "" {
          return found;
        }
      }
    }
    var xff := JoinHeader(headers("X-Forwarded-For"));
    HeaderHops(cfg, headers("X-Forwarded-For"));
    if xff != "" && trusted {
      var found := RightmostUntrusted(cfg, xff);
      WalkIsSafe(cfg, LastHops(Split(xff)));
      if found != "" {
        return found;
      }
    }
    ip := peer;
  }

  /** A hop as it stands in a header: a word with blanks around it. */
  datatype Padded = Padded(left: string, word: string, right: string) {
    function Text(): string {
      left + word + right
    }

    ghost predicate Valid() {
      Blank(left) && Blank(right) && Bare(word) && ',' !in Text()
    }
  }

  ghost function Texts(ps: seq<Padded>): seq<string> {
    seq(|ps|, i requires 0 <= i < |ps| => ps[i].Text())
  }

  /** The whole path, on the header's own text: whatever the client wrote first, then one hop outside every declared
      network, then fewer than 32 hops inside one, with any blanks around each, spread over any field lines. The answer
      is that hop's own characters if it is an address and nothing otherwise, whatever stands left of it. */
  lemma ForwardedClient(cfg: Config, lines: seq<string>, prefix: seq<string>, c: Padded, suffix: seq<Padded>)
    requires lines != [] && Join(lines) == Join(prefix + [c.Text()] + Texts(suffix))
    requires c.Valid() && forall i :: 0 <= i < |suffix| ==> suffix[i].Valid()
    requires |suffix| < 32 && forall i :: 0 <= i < |suffix| ==> InNetwork(cfg, suffix[i].word)
    requires !InNetwork(cfg, c.word)
    ensures Found(cfg, lines) == if cfg.parse(c.word).Some? then c.word else ""
    ensures Walk(cfg, LastHops(Split(JoinHeader(lines)))) == Found(cfg, lines)
  {
    var last := Texts(suffix);
    SplitJoin(lines);
    SplitJoin(prefix + [c.Text()] + last);
    HopsConcat(prefix + [c.Text()], last);
    HopsConcat(prefix, [c.Text()]);
    HopsOfHops([c.Text()]);
    HopsOfHops(last);
    TrimIs(c.left, c.word, c.right);
    TrustedIsInNetwork(cfg, c.word);
    forall i | 0 <= i < |last| ensures Trusted(cfg, Trim(last[i])) {
      TrimIs(suffix[i].left, suffix[i].word, suffix[i].right);
      TrustedIsInNetwork(cfg, suffix[i].word);
    }
    WalkFindsClosestUntrusted(cfg, Hops(prefix), c.Text(), last);
  }

  /** The cap on hops is what bounds the suffix: thirty-two trusted hops hide everything before them. */
  lemma {:induction false} TooManyTrustedHops(cfg: Config, prefix: seq<string>, suffix: seq<Padded>)
    requires |suffix| == 32 && forall i :: 0 <= i < |suffix| ==> suffix[i].Valid() && InNetwork(cfg, suffix[i].word)
    ensures Found(cfg, prefix + Texts(suffix)) == ""
  {
    var last := Texts(suffix);
    HopsConcat(prefix, last);
    HopsOfHops(last);
    forall i | 0 <= i < |last| ensures Trusted(cfg, Trim(last[i])) {
      TrimIs(suffix[i].left, suffix[i].word, suffix[i].right);
      TrustedIsInNetwork(cfg, suffix[i].word);
    }
    assert LastHops(Hops(prefix) + last) == [] + last;
    WalkSkipsTrusted(cfg, [], last);
  }
}
