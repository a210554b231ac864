/**
 The source of a request (internal/auth/source.go): which address the right-to-left walk of the
 forwarded chain designates, and under which class that address is counted. Reading and writing an
 address as text are functions given to the model; a line is a sequence of code points.
 */
module Source {
  import opened Common
  import opened Text

  const MAX_FORWARDED_HOPS := 16

  type Bits32 = x: int | 0 <= x < 0x1_0000_0000
  type Bits128 = x: int | 0 <= x < 0x1_0000_0000_0000_0000_0000_0000_0000_0000

  datatype Addr =
    | V4(v4: Bits32)
    | V6(v6: Bits128, zone: string)
  {
    predicate Is4In6() { V6? && v6 / 0x1_0000_0000 == 0xffff }

    function Unmap(): Addr { if Is4In6() then V4(v6 % 0x1_0000_0000) else this }

    function WithoutZone(): Addr { if V6? then V6(v6, "") else this }

    predicate HasZone() { V6? && zone != "" }
  }

  function Pow2(n: nat): (p: nat)
    ensures p > 0
  {
    if n == 0 then 1 else 2 * Pow2(n - 1)
  }

  /** A network: the address it was written with, and its length, which need not be valid. */
  datatype Prefix = Prefix(addr: Addr, bits: int) {
    /** netip.Prefix.Contains: same family, no zone, same leading bits. */
    predicate Contains(a: Addr) {
      match (addr, a)
      case (V4(net), V4(host)) => 0 <= bits <= 32 && net / Pow2(32 - bits) == host / Pow2(32 - bits)
      case (V6(net, _), V6(host, zone)) =>
        0 <= bits <= 128 && zone == "" && net / Pow2(128 - bits) == host / Pow2(128 - bits)
      case _ => false
    }
  }

  predicate IsTrusted(a: Addr, trusted: seq<Prefix>) {
    exists k :: 0 <= k < |trusted| && trusted[k].Contains(a.Unmap())
  }

  function Ours(trusted: seq<Prefix>): Trust { a => IsTrusted(a, trusted) }

  // ---------------------------------------------------------------- networks, bit by bit

  function Bit(x: nat, i: nat): nat { x / Pow2(i) % 2 }

  /** The address an IPv4 has inside IPv6 (section 2.5.5.2 of RFC 4291) is read as that IPv4. */
  function Plain(a: Addr): Addr {
    if a.V6? && 0xffff_0000_0000 <= a.v6 <= 0xffff_ffff_ffff then V4(a.v6 - 0xffff_0000_0000) else a
  }

  /** The address is of the family of the network, carries no zone, and starts with its leading bits. */
  predicate Within(a: Addr, net: Prefix) {
    if a.V4? then
      && net.addr.V4? && 0 <= net.bits <= 32
      && forall i: nat | 32 - net.bits <= i < 32 :: Bit(a.v4, i) == Bit(net.addr.v4, i)
    else
      && net.addr.V6? && 0 <= net.bits <= 128 && a.zone == ""
      && forall i: nat | 128 - net.bits <= i < 128 :: Bit(a.v6, i) == Bit(net.addr.v6, i)
  }

  /** Some network that is ours holds the address. */
  predicate OfOurs(a: Addr, trusted: seq<Prefix>) {
    exists k :: 0 <= k < |trusted| && Within(Plain(a), trusted[k])
  }

  lemma Expanded(p: nat, a: nat, c: nat)
    ensures p * (a + 1 + c) == p * a + p + p * c
  {
  }

  lemma Steps(p: nat, a: nat, b: nat)
    ensures a < b ==> p * a + p <= p * b
  {
    if a < b {
      Expanded(p, a, b - a - 1);
    }
  }

  lemma Quotient(x: nat, p: nat, q: nat)
    requires p > 0 && p * q <= x < p * q + p
    ensures x / p == q
  {
    assert x == p * (x / p) + x % p;
    Steps(p, x / p, q);
    Steps(p, q, x / p);
  }

  lemma Twice(p: nat, q: nat, b: nat)
    ensures p * (2 * q + b) == 2 * p * q + p * b
  {
  }

  lemma HalvedOnceMore(x: nat, n: nat)
    ensures x / Pow2(n) == 2 * (x / Pow2(n + 1)) + Bit(x, n)
  {
    var p := Pow2(n);
    var d := x / p;
    assert x == p * d + x % p;
    Twice(p, d / 2, d % 2);
    assert d == 2 * (d / 2) + d % 2;
    assert p * (d % 2) == if d % 2 == 0 then 0 else p;
    Quotient(x, 2 * p, d / 2);
  }

  /** Two numbers of `width` bits agree on the leading ones iff they are the same without the others. */
  lemma {:induction false} LeadingBitsAgreeIff(x: nat, y: nat, n: nat, width: nat)
    requires n <= width && x < Pow2(width) && y < Pow2(width)
    ensures x / Pow2(n) == y / Pow2(n) <==> forall i: nat | n <= i < width :: Bit(x, i) == Bit(y, i)
    decreases width - n
  {
    if n == width {
      Quotient(x, Pow2(n), 0);
      Quotient(y, Pow2(n), 0);
    } else {
      LeadingBitsAgreeIff(x, y, n + 1, width);
      HalvedOnceMore(x, n);
      HalvedOnceMore(y, n);
      assert (forall i: nat | n <= i < width :: Bit(x, i) == Bit(y, i)) <==>
          Bit(x, n) == Bit(y, n) && forall i: nat | n + 1 <= i < width :: Bit(x, i) == Bit(y, i);
    }
  }

  lemma {:induction false} PowersMultiply(m: nat, n: nat)
    ensures Pow2(m + n) == Pow2(m) * Pow2(n)
  {
    if m > 0 {
      PowersMultiply(m - 1, n);
      assert Pow2(m + n) == 2 * Pow2(m - 1 + n);
    }
  }

  lemma Squared(n: nat, p: nat)
    requires Pow2(n) == p
    ensures Pow2(2 * n) == p * p
  {
    PowersMultiply(n, n);
  }

  lemma TheWidths()
    ensures Pow2(32) == 0x1_0000_0000
    ensures Pow2(64) == 0x1_0000_0000_0000_0000
    ensures Pow2(128) == 0x1_0000_0000_0000_0000_0000_0000_0000_0000
  {
    Squared(4, 0x10);
    Squared(8, 0x100);
    Squared(16, 0x1_0000);
    Squared(32, 0x1_0000_0000);
    Squared(64, 0x1_0000_0000_0000_0000);
  }

  /** A network contains an address exactly when it is within it, bit by bit. */
  lemma ContainsIff(net: Prefix, a: Addr)
    ensures net.Contains(a) <==> Within(a, net)
  {
    TheWidths();
    if a.V4? && net.addr.V4? && 0 <= net.bits <= 32 {
      LeadingBitsAgreeIff(a.v4, net.addr.v4, 32 - net.bits, 32);
    } else if a.V6? && net.addr.V6? && 0 <= net.bits <= 128 {
      LeadingBitsAgreeIff(a.v6, net.addr.v6, 128 - net.bits, 128);
    }
  }

  lemma UnmappedIsPlain(a: Addr)
    ensures a.Unmap() == Plain(a)
  {
  }

  /** The proxies that are trusted are those of our networks. */
  lemma TrustedIffOurs(a: Addr, trusted: seq<Prefix>)
    ensures IsTrusted(a, trusted) <==> OfOurs(a, trusted)
  {
    UnmappedIsPlain(a);
    forall k | 0 <= k < |trusted| ensures trusted[k].Contains(a.Unmap()) <==> Within(Plain(a), trusted[k]) {
      ContainsIff(trusted[k], Plain(a));
    }
  }

  // ---------------------------------------------------------------- the chain as a list

  function Reversed(s: seq<string>): (r: seq<string>)
    ensures |r| == |s|
    ensures forall k :: 0 <= k < |s| ==> r[k] == s[|s| - 1 - k]
  {
    seq(|s|, k requires 0 <= k < |s| => s[|s| - 1 - k])
  }

  /** The fields of one line, right to left; a leftmost field that is empty is not one. */
  function LineHops(line: string): seq<string> {
    var fields := Split(line, ',');
    Reversed(if fields[0] == "" then fields[1..] else fields)
  }

  /** The fields of the whole header, right to left, last line first. */
  function ChainHops(lines: seq<string>): seq<string> {
    if lines == [] then []
    else LineHops(lines[|lines| - 1]) + ChainHops(lines[..|lines| - 1])
  }

  /** netip.ParseAddr, and the test of slices.ContainsFunc over the trusted networks. */
  type Parser = string -> Option<Addr>
  type Trust = Addr -> bool

  /** The first hop that cannot be read ends the walk; the first that is not ours is the client. */
  function Walk(hops: seq<string>, ours: Trust, parse: Parser): Option<Addr> {
    if hops == [] then None
    else
      match parse(TrimSpace(hops[0]))
      case None => None
      case Some(a) => if ours(a) then Walk(hops[1..], ours, parse) else Some(a)
  }

  function Take(hops: seq<string>, n: nat): seq<string> { if |hops| <= n then hops else hops[..n] }

  function Designated(lines: seq<string>, ours: Trust, parse: Parser): Option<Addr> {
    Walk(Take(ChainHops(lines), MAX_FORWARDED_HOPS), ours, parse)
  }

  // ---------------------------------------------------------------- the walk in place

  function LastIndex(s: string, c: char): (k: int)
    ensures -1 <= k < |s|
  {
    if s == "" then -1
    else if s[|s| - 1] == c then |s| - 1
    else LastIndex(s[..|s| - 1], c)
  }

  lemma {:induction false} LastIndexIsLast(s: string, c: char)
    ensures var k := LastIndex(s, c);
            if k < 0 then c !in s else s == s[..k] + [c] + s[k + 1..] && c !in s[k + 1..]
  {
    if s != "" && s[|s| - 1] != c {
      var t := s[..|s| - 1];
      LastIndexIsLast(t, c);
      var k := LastIndex(s, c);
      if k >= 0 {
        assert s[k + 1..] == t[k + 1..] + [s[|s| - 1]];
      }
    }
  }

  /** The fields of a line as the loop cuts them off, from its last comma leftwards. */
  function CutHops(line: string): seq<string> {
    if line == "" then []
    else
      var k := LastIndex(line, ',');
      if k < 0 then [line] else [line[k + 1..]] + CutHops(line[..k])
  }

  function CutChain(lines: seq<string>): seq<string> {
    if lines == [] then [] else CutHops(lines[|lines| - 1]) + CutChain(lines[..|lines| - 1])
  }

  lemma {:induction false} SplitWithoutSeparator(s: string, sep: char)
    requires sep !in s
    ensures Split(s, sep) == [s]
  {
    if s != "" {
      SplitWithoutSeparator(s[1..], sep);
      assert s[0] in s;
      assert [s[0]] + s[1..] == s;
    }
  }

  lemma {:induction false} SplitAtASeparator(left: string, right: string, sep: char)
    requires sep !in right
    ensures Split(left + [sep] + right, sep) == Split(left, sep) + [right]
  {
    var s := left + [sep] + right;
    if left == "" {
      SplitWithoutSeparator(right, sep);
      assert s[1..] == right;
    } else {
      SplitAtASeparator(left[1..], right, sep);
      assert s[1..] == left[1..] + [sep] + right;
    }
  }

  lemma ReversedAppend(s: seq<string>, x: string)
    ensures Reversed(s + [x]) == [x] + Reversed(s)
  {
  }

  /** Cutting from the right yields exactly the fields of the line, reversed. */
  lemma {:induction false} CutsAreTheFields(line: string)
    ensures CutHops(line) == LineHops(line)
    decreases |line|
  {
    var k := LastIndex(line, ',');
    LastIndexIsLast(line, ',');
    if line == "" {
    } else if k < 0 {
      SplitWithoutSeparator(line, ',');
      assert Reversed([line]) == [line];
    } else {
      var left, right := line[..k], line[k + 1..];
      CutsAreTheFields(left);
      SplitAtASeparator(left, right, ',');
      ReversedAppend(Split(left, ','), right);
      ReversedAppend(Split(left, ',')[1..], right);
      assert (Split(left, ',') + [right])[1..] == Split(left, ',')[1..] + [right];
    }
  }

  lemma {:induction false} CutsAreTheChain(lines: seq<string>)
    ensures CutChain(lines) == ChainHops(lines)
  {
    if lines != [] {
      CutsAreTheFields(lines[|lines| - 1]);
      CutsAreTheChain(lines[..|lines| - 1]);
    }
  }

  /** What the walk still finds once `examined` hops are behind it. */
  function Onward(hops: seq<string>, examined: nat, ours: Trust, parse: Parser): Option<Addr>
    requires examined <= MAX_FORWARDED_HOPS
    decreases |hops|
  {
    if hops == [] || examined == MAX_FORWARDED_HOPS then None
    else
      match parse(TrimSpace(hops[0]))
      case None => None
      case Some(a) => if ours(a) then Onward(hops[1..], examined + 1, ours, parse) else Some(a)
  }

  lemma {:induction false} OnwardIsTheBoundedWalk(hops: seq<string>, examined: nat, ours: Trust, parse: Parser)
    requires examined <= MAX_FORWARDED_HOPS
    ensures Onward(hops, examined, ours, parse) == Walk(Take(hops, MAX_FORWARDED_HOPS - examined), ours, parse)
    decreases |hops|
  {
    var left := Take(hops, MAX_FORWARDED_HOPS - examined);
    if hops != [] && examined < MAX_FORWARDED_HOPS {
      OnwardIsTheBoundedWalk(hops[1..], examined + 1, ours, parse);
      assert left[1..] == Take(hops[1..], MAX_FORWARDED_HOPS - examined - 1);
    }
  }

  function HopOf(remaining: string): string {
    var k := LastIndex(remaining, ',');
    if k < 0 then remaining else remaining[k + 1..]
  }

  function RestOf(remaining: string): string {
    var k := LastIndex(remaining, ',');
    if k < 0 then "" else remaining[..k]
  }

  /** One turn of the inner loop. */
  lemma OneTurn(remaining: string, earlier: seq<string>, examined: nat, ours: Trust, parse: Parser)
    requires remaining != "" && examined <= MAX_FORWARDED_HOPS
    ensures Onward(CutHops(remaining) + earlier, examined, ours, parse) ==
            if examined == MAX_FORWARDED_HOPS then None
            else
              match parse(TrimSpace(HopOf(remaining)))
              case None => None
              case Some(a) =>
                if ours(a) then Onward(CutHops(RestOf(remaining)) + earlier, examined + 1, ours, parse)
                else Some(a)
  {
    CutOne(remaining);
    FirstAndRest(CutHops(remaining), HopOf(remaining), CutHops(RestOf(remaining)), earlier);
  }

  lemma CutOne(remaining: string)
    requires remaining != ""
    ensures CutHops(remaining) == [HopOf(remaining)] + CutHops(RestOf(remaining))
  {
  }

  lemma FirstAndRest(hops: seq<string>, hop: string, rest: seq<string>, earlier: seq<string>)
    requires hops == [hop] + rest
    ensures hops + earlier != [] && (hops + earlier)[0] == hop && (hops + earlier)[1..] == rest + earlier
  {
  }

  lemma ALineIsNext(lines: seq<string>, index: nat)
    requires index < |lines|
    ensures CutChain(lines[..index + 1]) == CutHops(lines[index]) + CutChain(lines[..index])
  {
    assert lines[..index + 1][..index] == lines[..index];
  }

  lemma NothingIsLeft(earlier: seq<string>)
    ensures CutHops("") + earlier == earlier
  {
  }

  lemma TheCutsDesignate(lines: seq<string>, ours: Trust, parse: Parser)
    ensures Onward(CutChain(lines), 0, ours, parse) == Designated(lines, ours, parse)
  {
    CutsAreTheChain(lines);
    OnwardIsTheBoundedWalk(ChainHops(lines), 0, ours, parse);
  }

  /** The nested loop finds what the list designates, and reads at most sixteen hops of any header. */
  method FirstUntrustedHop(lines: seq<string>, ours: Trust, parse: Parser)
    returns (client: Option<Addr>, ghost parsed: nat)
    ensures client == Designated(lines, ours, parse)
    ensures parsed <= MAX_FORWARDED_HOPS
  {
    var examined := 0;
    var index := |lines| - 1;
    client, parsed := None, 0;
    ghost var answer := Onward(CutChain(lines), 0, ours, parse);
    assert lines[..|lines|] == lines;
    label walk: while index >= 0
      invariant -1 <= index < |lines|
      invariant parsed == examined <= MAX_FORWARDED_HOPS && client == None
      invariant answer == Onward(CutChain(lines[..index + 1]), examined, ours, parse)
    {
      var remaining := lines[index];
      ghost var earlier := CutChain(lines[..index]);
      ALineIsNext(lines, index);
      while remaining != ""
        invariant parsed == examined <= MAX_FORWARDED_HOPS && client == None
        invariant answer == Onward(CutHops(remaining) + earlier, examined, ours, parse)
        decreases |remaining|
      {
        OneTurn(remaining, earlier, examined, ours, parse);
        if examined == MAX_FORWARDED_HOPS {
          break walk;
        }
        examined := examined + 1;
        var hop := remaining;
        var comma := LastIndex(remaining, ',');
        if comma >= 0 {
          hop, remaining := remaining[comma + 1..], remaining[..comma];
        } else {
          remaining := "";
        }
        var address := parse(TrimSpace(hop));
        parsed := parsed + 1;
        if address.None? {
          break walk;
        }
        if !ours(address.value) {
          client := address;
          break walk;
        }
      }
      NothingIsLeft(earlier);
      index := index - 1;
    }
    TheCutsDesignate(lines, ours, parse);
  }

  // ---------------------------------------------------------------- what is designated

  /** Hop `k` is read, and is not one of ours. */
  predicate Foreign(hops: seq<string>, k: nat, ours: Trust, parse: Parser)
    requires k < |hops|
  {
    parse(TrimSpace(hops[k])).Some? && !ours(parse(TrimSpace(hops[k])).value)
  }

  /** Hop `k` is read, and is one of ours. */
  predicate Passed(hops: seq<string>, k: nat, ours: Trust, parse: Parser)
    requires k < |hops|
  {
    parse(TrimSpace(hops[k])).Some? && ours(parse(TrimSpace(hops[k])).value)
  }

  /** Hop `k` is the first that is not both read and ours, and it is foreign. */
  predicate StopsAt(hops: seq<string>, k: nat, ours: Trust, parse: Parser)
    requires k < |hops|
  {
    Foreign(hops, k, ours, parse) && forall j :: 0 <= j < k ==> Passed(hops, j, ours, parse)
  }

  /**
   The walk finds an address iff it is that of a foreign hop all of whose followers, towards our own
   proxy, are read and are ours.
   */
  lemma {:induction false} WalkFindsIff(hops: seq<string>, a: Addr, ours: Trust, parse: Parser)
    ensures Walk(hops, ours, parse) == Some(a) <==>
            exists k :: 0 <= k < |hops| && StopsAt(hops, k, ours, parse) &&
              parse(TrimSpace(hops[k])) == Some(a)
  {
    if hops != [] {
      var tail := hops[1..];
      WalkFindsIff(tail, a, ours, parse);
      if Passed(hops, 0, ours, parse) {
        forall k | 0 <= k < |tail|
          ensures StopsAt(tail, k, ours, parse) <==> StopsAt(hops, k + 1, ours, parse)
        {
          OneHopFurther(hops, k, ours, parse);
        }
        forall k | 0 <= k < |hops| && StopsAt(hops, k, ours, parse)
          ensures k > 0 && StopsAt(tail, k - 1, ours, parse)
        {
          if k > 0 { OneHopFurther(hops, k - 1, ours, parse); }
        }
      } else {
        assert StopsAt(hops, 0, ours, parse) <==> Foreign(hops, 0, ours, parse);
        forall k | 0 < k < |hops| ensures !StopsAt(hops, k, ours, parse) { }
      }
    }
  }

  lemma OneHopFurther(hops: seq<string>, k: nat, ours: Trust, parse: Parser)
    requires k + 1 < |hops| && Passed(hops, 0, ours, parse)
    ensures StopsAt(hops[1..], k, ours, parse) <==> StopsAt(hops, k + 1, ours, parse)
  {
    assert forall j :: 0 <= j < |hops| - 1 ==>
      (Passed(hops[1..], j, ours, parse) <==>
          parse(TrimSpace(hops[j + 1])).Some? && ours(parse(TrimSpace(hops[j + 1])).value));
    if StopsAt(hops, k + 1, ours, parse) {
      forall j | 0 <= j < k ensures Passed(hops[1..], j, ours, parse) {
        assert Passed(hops, j + 1, ours, parse);
      }
    }
    if StopsAt(hops[1..], k, ours, parse) {
      forall j | 0 <= j < k + 1 ensures Passed(hops, j, ours, parse) {
        if j > 0 { assert Passed(hops[1..], j - 1, ours, parse); }
      }
    }
  }

  lemma {:induction false} AFoundHopHidesTheRest(hops: seq<string>, more: seq<string>, n: nat, ours: Trust,
                                                 parse: Parser)
    requires Walk(Take(hops, n), ours, parse).Some?
    ensures Walk(Take(hops + more, n), ours, parse) == Walk(Take(hops, n), ours, parse)
    decreases |hops|
  {
    var near, far := Take(hops, n), Take(hops + more, n);
    if near != [] {
      assert near[0] == far[0];
      var a := parse(TrimSpace(near[0]));
      if a.Some? && ours(a.value) {
        assert near[1..] == Take(hops[1..], n - 1);
        assert (hops + more)[1..] == hops[1..] + more;
        assert far[1..] == Take(hops[1..] + more, n - 1);
        AFoundHopHidesTheRest(hops[1..], more, n - 1, ours, parse);
      }
    }
  }

  lemma {:induction false} EarlierLinesComeLast(more: seq<string>, lines: seq<string>)
    ensures CutChain(more + lines) == CutChain(lines) + CutChain(more)
  {
    if lines == [] {
      assert more + lines == more;
    } else {
      var n := |lines| - 1;
      EarlierLinesComeLast(more, lines[..n]);
      assert (more + lines)[..|more| + n] == more + lines[..n];
      TheLastLineComesFirst(more + lines);
      TheLastLineComesFirst(lines);
      Regroup(CutHops(lines[n]), CutChain(lines[..n]), CutChain(more), CutChain(lines), CutChain(more + lines));
    }
  }

  lemma TheLastLineComesFirst(lines: seq<string>)
    requires lines != []
    ensures CutChain(lines) == CutHops(lines[|lines| - 1]) + CutChain(lines[..|lines| - 1])
  {
  }

  lemma Regroup(a: seq<string>, b: seq<string>, c: seq<string>, ab: seq<string>, abc: seq<string>)
    requires ab == a + b && abc == a + (b + c)
    ensures abc == ab + c
  {
  }

  lemma {:induction false} LastIndexBehind(left: string, line: string)
    requires left != "" && left[|left| - 1] == ','
    ensures LastIndex(left + line, ',') == |left| + LastIndex(line, ',')
  {
    if line == "" {
      assert left + line == left;
    } else {
      var n := |line| - 1;
      LastIndexBehind(left, line[..n]);
      assert (left + line)[..|left| + n] == left + line[..n];
    }
  }

  lemma SlicesBehind(left: string, line: string, k: nat)
    requires k <= |line|
    ensures (left + line)[|left| + k..] == line[k..]
    ensures (left + line)[..|left| + k] == left + line[..k]
  {
  }

  lemma TheLastFieldAt(s: string, k: int)
    requires k == LastIndex(s, ',')
    ensures HopOf(s) == if k < 0 then s else s[k + 1..]
    ensures k >= 0 ==> RestOf(s) == s[..k]
  {
  }

  lemma TheLastFieldStays(left: string, line: string)
    requires left != "" && left[|left| - 1] == ','
    ensures HopOf(left + line) == HopOf(line)
    ensures LastIndex(line, ',') >= 0 ==> RestOf(left + line) == left + RestOf(line)
  {
    var k := LastIndex(line, ',');
    LastIndexBehind(left, line);
    TheLastFieldAt(line, k);
    TheLastFieldAt(left + line, |left| + k);
    SlicesBehind(left, line, k + 1);
    if k >= 0 {
      SlicesBehind(left, line, k);
    } else {
      assert line[0..] == line;
    }
  }

  /** Fields written to the left of a line, with the comma that ends them, come after its own hops. */
  lemma {:induction false} LeftFieldsComeLast(left: string, line: string)
    requires left != "" && left[|left| - 1] == ','
    ensures CutHops(line) <= CutHops(left + line)
    decreases |line|
  {
    if line != "" {
      TheLastFieldStays(left, line);
      CutOne(line);
      CutOne(left + line);
      if LastIndex(line, ',') >= 0 {
        LeftFieldsComeLast(left, RestOf(line));
      }
      SameFirst(HopOf(line), CutHops(RestOf(line)), CutHops(RestOf(left + line)));
    }
  }

  lemma SameFirst(hop: string, a: seq<string>, b: seq<string>)
    requires a <= b
    ensures [hop] + a <= [hop] + b
  {
  }

  /** The header with text written before all of it: fields on its first line, or whole lines. */
  function Prepended(more: seq<string>, extra: string, lines: seq<string>): seq<string>
    requires lines != []
  {
    more + [extra + "," + lines[0]] + lines[1..]
  }

  /**
   Once the walk finds a hop, nothing written further left changes it: neither earlier lines nor
   fields before the first line's own.
   */
  lemma WhatStandsLeftDoesNotMatter(more: seq<string>, extra: string, lines: seq<string>, ours: Trust, parse: Parser)
    requires Designated(lines, ours, parse).Some?
    ensures lines != []
    ensures Designated(Prepended(more, extra, lines), ours, parse) == Designated(lines, ours, parse)
    ensures Designated(more + lines, ours, parse) == Designated(lines, ours, parse)
  {
    assert lines != [];
    var far := ThePrependedChain(more, extra, lines);
    EarlierLinesComeLast(more, lines);
    CutsAreTheChain(lines);
    CutsAreTheChain(more + lines);
    CutsAreTheChain(Prepended(more, extra, lines));
    AFoundHopHidesTheRest(ChainHops(lines), far, MAX_FORWARDED_HOPS, ours, parse);
    AFoundHopHidesTheRest(ChainHops(lines), CutChain(more), MAX_FORWARDED_HOPS, ours, parse);
  }

  lemma ThePrependedChain(more: seq<string>, extra: string, lines: seq<string>) returns (far: seq<string>)
    requires lines != []
    ensures CutChain(Prepended(more, extra, lines)) == CutChain(lines) + far
  {
    var rest, line, widened := lines[1..], lines[0], extra + "," + lines[0];
    EarlierLinesComeLast([line], rest);
    EarlierLinesComeLast(more + [widened], rest);
    EarlierLinesComeLast(more, [widened]);
    assert [line] + rest == lines;
    OneLine(line);
    OneLine(widened);
    LeftFieldsComeLast(extra + ",", line);
    far := ALongerPrefix(CutChain(rest), CutHops(line), CutHops(widened), CutChain(more));
  }

  lemma ALongerPrefix(rest: seq<string>, line: seq<string>, widened: seq<string>, more: seq<string>)
    returns (far: seq<string>)
    requires line <= widened
    ensures rest + (widened + more) == (rest + line) + far
  {
    far := widened[|line|..] + more;
  }

  lemma OneLine(line: string)
    ensures CutChain([line]) == CutHops(line)
  {
    assert [line][..0] == [];
    assert CutHops(line) + [] == CutHops(line);
  }

  // ---------------------------------------------------------------- the address that is counted

  /** net/netip as functions: reading an address, reading the address of host:port, writing one. */
  datatype Netip = Netip(parse: Parser, parsePort: Parser, show: Addr -> string)

  datatype PeerError = NoPeerAddress | UnreadablePeerAddress

  function PeerAddress(remote: string, net: Netip): Result<Addr, PeerError> {
    if remote == "" then Err(NoPeerAddress)
    else
      match net.parsePort(remote)
      case Some(a) => Ok(a.WithoutZone())
      case None =>
        match net.parse(remote)
        case Some(a) => Ok(a.WithoutZone())
        case None => Err(UnreadablePeerAddress)
  }

  /** The address of the peer, unless the peer is ours and the header designates a client. */
  function Client(remote: string, forwardedFor: seq<string>, trusted: seq<Prefix>, net: Netip)
      : Result<Addr, PeerError>
  {
    match PeerAddress(remote, net)
    case Err(e) => Err(e)
    case Ok(peer) =>
      match Designated(forwardedFor, Ours(trusted), net.parse)
      case Some(client) => Ok(if IsTrusted(peer, trusted) then client else peer)
      case None => Ok(peer)
  }

  /**
   The header designates this address: it is what field `k` from the right reads as, one of the first sixteen,
   it is not of our networks, and every field right of it reads as an address that is.
   */
  predicate DesignatedAt(lines: seq<string>, k: nat, a: Addr, trusted: seq<Prefix>, parse: Parser) {
    var hops := ChainHops(lines);
    && k < 16 && k < |hops| && parse(TrimSpace(hops[k])) == Some(a) && !OfOurs(a, trusted)
    && forall j | 0 <= j < k ::
         parse(TrimSpace(hops[j])).Some? && OfOurs(parse(TrimSpace(hops[j])).value, trusted)
  }

  lemma TheWalkDesignates(lines: seq<string>, a: Addr, trusted: seq<Prefix>, parse: Parser)
    ensures Designated(lines, Ours(trusted), parse) == Some(a) <==>
            exists k: nat :: DesignatedAt(lines, k, a, trusted, parse)
  {
    var chain, ours := ChainHops(lines), Ours(trusted);
    var hops := Take(chain, MAX_FORWARDED_HOPS);
    WalkFindsIff(hops, a, ours, parse);
    forall b ensures ours(b) <==> OfOurs(b, trusted) {
      TrustedIffOurs(b, trusted);
    }
    if k: nat :| k < |hops| && StopsAt(hops, k, ours, parse) && parse(TrimSpace(hops[k])) == Some(a) {
      forall j | 0 <= j < k
        ensures parse(TrimSpace(chain[j])).Some? && OfOurs(parse(TrimSpace(chain[j])).value, trusted)
      {
        assert Passed(hops, j, ours, parse);
      }
      assert DesignatedAt(lines, k, a, trusted, parse);
    }
    if k: nat :| DesignatedAt(lines, k, a, trusted, parse) {
      assert StopsAt(hops, k, ours, parse);
    }
  }

  /** What a request from `peer` is counted as. */
  ghost predicate CountedAs(peer: Addr, lines: seq<string>, trusted: seq<Prefix>, parse: Parser, a: Addr) {
    if OfOurs(peer, trusted) && exists k: nat, b :: DesignatedAt(lines, k, b, trusted, parse)
    then exists k: nat :: DesignatedAt(lines, k, a, trusted, parse)
    else a == peer
  }

  lemma ThePeerIsCountedAs(peer: Addr, lines: seq<string>, trusted: seq<Prefix>, parse: Parser, a: Addr)
    ensures CountedAs(peer, lines, trusted, parse, a) <==>
            a == if IsTrusted(peer, trusted) && Designated(lines, Ours(trusted), parse).Some?
                   then Designated(lines, Ours(trusted), parse).value else peer
  {
    TrustedIffOurs(peer, trusted);
    TheWalkDesignates(lines, a, trusted, parse);
    forall b ensures Designated(lines, Ours(trusted), parse) == Some(b) <==>
                     exists k: nat :: DesignatedAt(lines, k, b, trusted, parse) {
      TheWalkDesignates(lines, b, trusted, parse);
    }
  }

  /** The peer of a request: with its port, or without one; the zone of the machine is dropped. */
  function Peer(remote: string, net: Netip): Option<Addr> {
    var read := if net.parsePort(remote).Some? then net.parsePort(remote) else net.parse(remote);
    match read
    case Some(V6(v6, _)) => Some(V6(v6, ""))
    case _ => read
  }

  /**
   The client of a request: none without an address of the peer, or with one that is not read; the address that
   the header designates when the peer is of our networks and there is one; and the peer otherwise.
   */
  lemma TheClientIs(remote: string, lines: seq<string>, trusted: seq<Prefix>, net: Netip)
    ensures var client := Client(remote, lines, trusted, net);
            && (client == Err(NoPeerAddress) <==> remote == "")
            && (client == Err(UnreadablePeerAddress) <==> remote != "" && Peer(remote, net).None?)
            && (client.Ok? ==>
                  Peer(remote, net).Some?
                  && CountedAs(Peer(remote, net).value, lines, trusted, net.parse, client.value))
  {
    var client := Client(remote, lines, trusted, net);
    if client.Ok? {
      ThePeerIsCountedAs(Peer(remote, net).value, lines, trusted, net.parse, client.value);
    }
  }

  lemma ThereIsOneClient(lines: seq<string>, trusted: seq<Prefix>, parse: Parser)
    ensures forall k: nat, a, l: nat, b |
              DesignatedAt(lines, k, a, trusted, parse) && DesignatedAt(lines, l, b, trusted, parse) :: a == b
  {
    forall k: nat, a, l: nat, b |
      DesignatedAt(lines, k, a, trusted, parse) && DesignatedAt(lines, l, b, trusted, parse)
      ensures a == b
    {
      TheWalkDesignates(lines, a, trusted, parse);
      TheWalkDesignates(lines, b, trusted, parse);
    }
  }

  method ClientAddress(remote: string, forwardedFor: seq<string>, trusted: seq<Prefix>, net: Netip)
    returns (r: Result<string, PeerError>)
    ensures var client := Client(remote, forwardedFor, trusted, net);
            r == if client.Ok? then Ok(net.show(client.value)) else Err(client.error)
    ensures r == Err(NoPeerAddress) <==> remote == ""
    ensures r == Err(UnreadablePeerAddress) <==> remote != "" && Peer(remote, net).None?
    ensures r.Ok? ==>
              && Peer(remote, net).Some?
              && var peer := Peer(remote, net).value;
              && (forall k: nat, a | OfOurs(peer, trusted) && DesignatedAt(forwardedFor, k, a, trusted, net.parse) ::
                    r.value == net.show(a))
              && (!OfOurs(peer, trusted) || !(exists k: nat, a :: DesignatedAt(forwardedFor, k, a, trusted, net.parse))
                  ==> r.value == net.show(peer))
  {
    var peer := PeerAddress(remote, net);
    TheClientIs(remote, forwardedFor, trusted, net);
    ThereIsOneClient(forwardedFor, trusted, net.parse);
    if peer.Err? {
      return Err(peer.error);
    }
    if |trusted| == 0 || |forwardedFor| == 0 || !IsTrusted(peer.value, trusted) {
      return Ok(net.show(peer.value));
    }
    ghost var parsed;
    var client;
    client, parsed := FirstUntrustedHop(forwardedFor, Ours(trusted), net.parse);
    if client.Some? {
      return Ok(net.show(client.value));
    }
    return Ok(net.show(peer.value));
  }

  /** Text a client writes to the left of what our own proxy designates changes nothing. */
  lemma WhatTheClientWritesDoesNotMatter(
      remote: string, more: seq<string>, extra: string, lines: seq<string>, trusted: seq<Prefix>, net: Netip)
    requires lines != []
    requires PeerAddress(remote, net).Ok?
    requires IsTrusted(PeerAddress(remote, net).value, trusted) ==>
               Designated(lines, Ours(trusted), net.parse).Some?
    ensures Client(remote, Prepended(more, extra, lines), trusted, net) == Client(remote, lines, trusted, net)
    ensures Client(remote, more + lines, trusted, net) == Client(remote, lines, trusted, net)
  {
    if IsTrusted(PeerAddress(remote, net).value, trusted) {
      WhatStandsLeftDoesNotMatter(more, extra, lines, Ours(trusted), net.parse);
    }
  }

  // ---------------------------------------------------------------- the class it is counted under

  const TWO_TO_64 := 0x1_0000_0000_0000_0000

  function Network(a: Addr): Addr
    requires a.V6?
  {
    V6(a.v6 / TWO_TO_64 * TWO_TO_64, "")
  }

  function SourceScope(address: string, net: Netip): string {
    match net.parse(address)
    case None => address
    case Some(a) =>
      if a.V4? || a.Is4In6() then net.show(a.Unmap()) else net.show(Network(a)) + "/64"
  }

  /** Two addresses without zone are not written alike, and neither form holds a slash. */
  ghost predicate WritesFaithfully(net: Netip) {
    (forall a: Addr, b: Addr :: !a.HasZone() && !b.HasZone() && net.show(a) == net.show(b) ==> a == b) &&
    (forall a: Addr :: !a.HasZone() ==> '/' !in net.show(a))
  }

  /**
   Equal IPv4, one of them inside IPv6 or not (section 2.5.5.2 of RFC 4291), or the same leading sixty-four bits
   of an IPv6 (section 2.5.4).
   */
  predicate SameClass(a: Addr, b: Addr) {
    match (Plain(a), Plain(b))
    case (V4(x), V4(y)) => x == y
    case (V6(x, _), V6(y, _)) => forall i: nat | 64 <= i < 128 :: Bit(x, i) == Bit(y, i)
    case _ => false
  }

  lemma SameScopeIff(p: string, q: string, net: Netip)
    requires WritesFaithfully(net) && net.parse(p).Some? && net.parse(q).Some?
    ensures SourceScope(p, net) == SourceScope(q, net) <==> SameClass(net.parse(p).value, net.parse(q).value)
  {
    var a, b := net.parse(p).value.Unmap(), net.parse(q).value.Unmap();
    UnmappedIsPlain(net.parse(p).value);
    UnmappedIsPlain(net.parse(q).value);
    if a.V6? && b.V6? {
      var m, n := net.show(Network(a)), net.show(Network(b));
      SameEnd(m, n, "/64");
      SameNetworkIff(a.v6, b.v6);
    } else if a.V4? && b.V6? {
      assert '/' in net.show(Network(b)) + "/64";
    } else if a.V6? && b.V4? {
      assert '/' in net.show(Network(a)) + "/64";
    }
  }

  lemma SameEnd(m: string, n: string, end: string)
    ensures m + end == n + end ==> m == n
  {
    if m + end == n + end {
      assert |m| == |n| && (m + end)[..|m|] == m && (n + end)[..|n|] == n;
    }
  }

  lemma SameNetworkIff(x: Bits128, y: Bits128)
    ensures x / TWO_TO_64 * TWO_TO_64 == y / TWO_TO_64 * TWO_TO_64 <==>
            forall i: nat | 64 <= i < 128 :: Bit(x, i) == Bit(y, i)
  {
    TheWidths();
    LeadingBitsAgreeIff(x, y, 64, 128);
  }

  /**
   The text it is counted under: its own where it does not read as an address; an IPv4, inside IPv6 or not, as
   that IPv4; and an IPv6 as its leading sixty-four bits followed by none.
   */
  lemma TheScopeIs(address: string, net: Netip)
    ensures net.parse(address).None? ==> SourceScope(address, net) == address
    ensures net.parse(address).Some? && Plain(net.parse(address).value).V4? ==>
              SourceScope(address, net) == net.show(Plain(net.parse(address).value))
    ensures net.parse(address).Some? && Plain(net.parse(address).value).V6? ==>
              exists n: Bits128 ::
                && SourceScope(address, net) == net.show(V6(n, "")) + "/64"
                && n % 0x1_0000_0000_0000_0000 == 0
                && forall i: nat | 64 <= i < 128 :: Bit(n, i) == Bit(net.parse(address).value.v6, i)
  {
    if net.parse(address).Some? && Plain(net.parse(address).value).V6? {
      var x := net.parse(address).value.v6;
      var n: Bits128 := x / TWO_TO_64 * TWO_TO_64;
      ANetworkIsItsOwn(x);
      SameNetworkIff(x, n);
      assert SourceScope(address, net) == net.show(V6(n, "")) + "/64";
    }
  }

  lemma ANetworkIsItsOwn(x: Bits128)
    ensures var n := x / TWO_TO_64 * TWO_TO_64; n % TWO_TO_64 == 0 && n / TWO_TO_64 * TWO_TO_64 == n
  {
  }
}
