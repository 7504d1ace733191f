/** The gossip node's neighbour list: adding and removing neighbours, the
    periodic sweep that drops neighbours that went quiet, and the list
    configured at start-up from a space-separated string of URIs. */
module Neighbors {
  import opened Common

  /** An `InetSocketAddress` made from a host and a port, compared by its
      host string and port as written (no name resolution). */
  datatype Endpoint = Endpoint(host: string, port: int)

  /** A neighbour and its counters. Two neighbours are the same neighbour
      when their addresses are equal. */
  datatype Neighbor = Neighbor(address: Endpoint, all: nat, newTx: nat, invalid: nat, lastCheck: nat)

  function Fresh(a: Endpoint): Neighbor {
    Neighbor(a, 0, 0, 0, 0)
  }

  predicate Has(ns: seq<Neighbor>, a: Endpoint) {
    exists i :: 0 <= i < |ns| && ns[i].address == a
  }

  predicate UniqueAddresses(ns: seq<Neighbor>) {
    forall i, j :: 0 <= i < j < |ns| ==> ns[i].address != ns[j].address
  }

  lemma HasCons(x: Neighbor, l: seq<Neighbor>)
    ensures forall b :: Has([x] + l, b) <==> x.address == b || Has(l, b)
  {
    assert ([x] + l)[0] == x;
    forall b | Has(l, b) ensures Has([x] + l, b) {
      var i :| 0 <= i < |l| && l[i].address == b;
      assert ([x] + l)[i + 1] == l[i];
    }
    forall b | Has([x] + l, b) && x.address != b ensures Has(l, b) {
      var i :| 0 <= i < |[x] + l| && ([x] + l)[i].address == b;
      assert i > 0;
      assert l[i - 1] == ([x] + l)[i];
    }
  }

  // ---------------------------------------------------------------------
  // addNeighbor / removeNeighbor

  /** `addNeighbor`: append a fresh neighbour unless one with the address
      is present; report whether it was appended. */
  function AddNeighbor(ns: seq<Neighbor>, a: Endpoint): (r: (bool, seq<Neighbor>))
    ensures r.0 <==> !Has(ns, a)
    ensures Has(r.1, a)
    ensures forall b :: b != a ==> (Has(r.1, b) <==> Has(ns, b))
    ensures |r.1| == if r.0 then |ns| + 1 else |ns|
    ensures r.1[..|ns|] == ns
    ensures UniqueAddresses(ns) ==> UniqueAddresses(r.1)
  {
    if Has(ns, a) then (false, ns)
    else
      var ns' := ns + [Fresh(a)];
      assert ns'[|ns|].address == a;
      assert forall i :: 0 <= i < |ns| ==> ns'[i] == ns[i];
      (true, ns')
  }

  /** `List.remove`: drop the first neighbour with the address, if any. */
  function RemoveNeighbor(ns: seq<Neighbor>, a: Endpoint): (r: (bool, seq<Neighbor>))
    ensures r.0 <==> Has(ns, a)
    ensures |r.1| == if r.0 then |ns| - 1 else |ns|
    ensures forall b :: b != a ==> (Has(r.1, b) <==> Has(ns, b))
    ensures UniqueAddresses(ns) ==> UniqueAddresses(r.1) && !Has(r.1, a)
  {
    if |ns| == 0 then (false, ns)
    else if ns[0].address == a then
      assert forall i :: 0 <= i < |ns| - 1 ==> ns[1..][i] == ns[i + 1];
      (true, ns[1..])
    else
      var rest := RemoveNeighbor(ns[1..], a);
      var r := [ns[0]] + rest.1;
      assert forall i :: 0 < i < |r| ==> r[i] == rest.1[i - 1];
      assert forall i :: 0 < i < |ns| ==> ns[i] == ns[1..][i - 1];
      assert UniqueAddresses(ns) ==> UniqueAddresses(ns[1..]) && !Has(ns[1..], ns[0].address);
      HasCons(ns[0], rest.1);
      HasCons(ns[0], ns[1..]);
      assert ns == [ns[0]] + ns[1..];
      (rest.0, r)
  }

  /** Adding an absent address and removing it again restores the list. */
  lemma AddThenRemove(ns: seq<Neighbor>, a: Endpoint)
    requires !Has(ns, a)
    ensures RemoveNeighbor(AddNeighbor(ns, a).1, a) == (true, ns)
  {
    RemoveAppended(ns, a);
  }

  lemma {:induction false} RemoveAppended(ns: seq<Neighbor>, a: Endpoint)
    requires !Has(ns, a)
    ensures RemoveNeighbor(ns + [Fresh(a)], a) == (true, ns)
  {
    var l := ns + [Fresh(a)];
    if |ns| > 0 {
      assert ns[0].address != a;
      assert l[1..] == ns[1..] + [Fresh(a)];
      assert !Has(ns[1..], a) by {
        forall i | 0 <= i < |ns| - 1 ensures ns[1..][i].address != a {
          assert ns[1..][i] == ns[i + 1];
        }
      }
      RemoveAppended(ns[1..], a);
      assert [ns[0]] + ns[1..] == ns;
    }
  }

  // ---------------------------------------------------------------------
  // The quiet-neighbour sweep

  /** Received transactions, and none since the previous sweep. */
  predicate Stalled(n: Neighbor) {
    n.all > 0 && n.all == n.lastCheck
  }

  /** The sweep records the current count as the last-check count. */
  function Checked(n: Neighbor): Neighbor {
    n.(lastCheck := n.all)
  }

  /** One sweep: every neighbour's last-check count is brought up to date,
      and the stalled ones are removed. */
  function Sweep(ns: seq<Neighbor>): (r: seq<Neighbor>)
    ensures |r| <= |ns|
    ensures forall i :: 0 <= i < |r| ==> r[i].lastCheck == r[i].all
    ensures forall a :: Has(r, a) <==> exists i :: 0 <= i < |ns| && ns[i].address == a && !Stalled(ns[i])
    ensures forall n :: n in r <==> exists i :: 0 <= i < |ns| && !Stalled(ns[i]) && n == Checked(ns[i])
  {
    if |ns| == 0 then []
    else
      var rest := Sweep(ns[1..]);
      assert forall i :: 0 < i < |ns| ==> ns[i] == ns[1..][i - 1];
      if Stalled(ns[0]) then rest
      else
        var r := [Checked(ns[0])] + rest;
        assert forall i :: 0 < i < |r| ==> r[i] == rest[i - 1];
        HasCons(Checked(ns[0]), rest);
        r
  }

  /** Two sweeps with no traffic in between leave exactly the neighbours
      that never received anything. */
  lemma {:induction false} IdleTwiceLeavesSilent(ns: seq<Neighbor>)
    ensures forall i :: 0 <= i < |Sweep(Sweep(ns))| ==> Sweep(Sweep(ns))[i].all == 0
    ensures forall i :: 0 <= i < |ns| && ns[i].all == 0 ==> Checked(ns[i]) in Sweep(Sweep(ns))
  {
    var once := Sweep(ns);
    var twice := Sweep(once);
    forall i | 0 <= i < |twice| ensures twice[i].all == 0 {
      assert twice[i] in twice;
      var j :| 0 <= j < |once| && !Stalled(once[j]) && twice[i] == Checked(once[j]);
      assert once[j].lastCheck == once[j].all;
    }
    forall i | 0 <= i < |ns| && ns[i].all == 0 ensures Checked(ns[i]) in twice {
      var n := Checked(ns[i]);
      assert n in once;
      var j :| 0 <= j < |once| && once[j] == n;
      assert Checked(once[j]) == n;
    }
  }

  // ---------------------------------------------------------------------
  // The configured list

  /** `String.split(" ")` before trailing empty strings are dropped: the
      text between consecutive spaces. */
  function Pieces(s: string): (r: seq<string>)
    ensures |r| > 0
    ensures ' ' !in s ==> r == [s]
    ensures forall i :: 0 <= i < |r| ==> ' ' !in r[i]
  {
    if |s| == 0 then [""]
    else
      var rest := Pieces(s[1..]);
      if s[0] == ' ' then
        var r := [""] + rest;
        assert forall i :: 0 < i < |r| ==> r[i] == rest[i - 1];
        r
      else
        var r := [[s[0]] + rest[0]] + rest[1..];
        assert forall i :: 0 < i < |r| ==> r[i] == rest[i];
        assert ' ' !in s ==> ' ' !in s[1..] && s == [s[0]] + s[1..];
        r
  }

  /** The pieces joined back with single spaces. */
  function Join(ps: seq<string>): string
    requires |ps| > 0
  {
    if |ps| == 1 then ps[0] else ps[0] + " " + Join(ps[1..])
  }

  /** Splitting at the spaces and joining with spaces is the identity. */
  lemma {:induction false} JoinPieces(s: string)
    ensures Join(Pieces(s)) == s
  {
    if |s| > 0 {
      var rest := Pieces(s[1..]);
      JoinPieces(s[1..]);
      if s[0] == ' ' {
        assert ([""] + rest)[1..] == rest;
      } else {
        var r := [[s[0]] + rest[0]] + rest[1..];
        if |rest| == 1 {
          assert Join(r) == [s[0]] + rest[0];
        } else {
          assert r[1..] == rest[1..];
          assert Join(rest) == rest[0] + " " + Join(rest[1..]);
        }
      }
      assert s == [s[0]] + s[1..];
    }
  }

  function DropTrailingEmpty(ps: seq<string>): (r: seq<string>)
    ensures |r| <= |ps| && r == ps[..|r|]
    ensures |r| > 0 ==> r[|r| - 1] != ""
    ensures forall i :: |r| <= i < |ps| ==> ps[i] == ""
  {
    if |ps| == 0 || ps[|ps| - 1] != "" then ps
    else DropTrailingEmpty(ps[..|ps| - 1])
  }

  /** `String.split(" ")`: with no space the string itself, otherwise the
      pieces without the trailing empty ones. */
  function Split(s: string): (r: seq<string>)
    ensures forall i :: 0 <= i < |r| ==> ' ' !in r[i]
  {
    if ' ' !in s then [s] else DropTrailingEmpty(Pieces(s))
  }

  function NonEmpty(): string -> bool { w => w != "" }

  /** The words of the string: the split keeps every non-empty piece. */
  lemma SplitKeepsWords(s: string)
    ensures forall w :: w != "" ==> (w in Split(s) <==> w in Pieces(s))
  {
    if ' ' in s {
      var ps := Pieces(s);
      var r := DropTrailingEmpty(ps);
      forall w | w != "" && w in ps ensures w in r {
        var i :| 0 <= i < |ps| && ps[i] == w;
        assert i < |r|;
        assert r[i] == w;
      }
    }
  }

  /** `Stream.distinct`: the first occurrence of each string, in order. */
  function Dedup(ss: seq<string>, seen: set<string>): (r: seq<string>)
    ensures Distinct(r)
    ensures forall w :: w in r <==> w in ss && w !in seen
  {
    if |ss| == 0 then []
    else if ss[0] in seen then Dedup(ss[1..], seen)
    else
      var rest := Dedup(ss[1..], seen + {ss[0]});
      assert forall w :: w in ss <==> w == ss[0] || w in ss[1..];
      DistinctConcat([ss[0]], rest);
      [ss[0]] + rest
  }

  /** Distinct input passes unchanged. */
  lemma {:induction false} DedupDistinct(ss: seq<string>, seen: set<string>)
    requires Distinct(ss) && Elems(ss) !! seen
    ensures Dedup(ss, seen) == ss
  {
    if |ss| > 0 {
      assert ss[0] !in Elems(ss[1..]) by {
        forall i | 0 <= i < |ss| - 1 ensures ss[1..][i] != ss[0] {
          assert ss[1..][i] == ss[i + 1];
        }
      }
      assert Distinct(ss[1..]) by {
        forall i, j | 0 <= i < j < |ss| - 1 ensures ss[1..][i] != ss[1..][j] {
          assert ss[1..][i] == ss[i + 1] && ss[1..][j] == ss[j + 1];
        }
      }
      assert Elems(ss[1..]) !! seen + {ss[0]};
      DedupDistinct(ss[1..], seen + {ss[0]});
      assert ss == [ss[0]] + ss[1..];
    }
  }

  /** What `new URI(s)` yields. A URI without a scheme or host has the
      empty string there, which differs from "udp". */
  datatype Uri = Uri(scheme: string, host: Option<string>, port: int)

  /** `new InetSocketAddress(host, port)`, which rejects a missing host or a
      port outside [0, 65535]. */
  function EndpointOf(u: Uri): Option<Endpoint> {
    if u.host.Some? && 0 <= u.port <= 65535 then Some(Endpoint(u.host.value, u.port)) else None
  }

  /** One configured word in the stream: an unparsable URI or a udp URI
      that makes no socket address throws; any other scheme is skipped
      with a warning. */
  datatype Step = Fail | Skip | Add(e: Endpoint)

  function StepOf(w: string, parse: string -> Option<Uri>): Step {
    match parse(w)
    case None => Fail
    case Some(u) =>
      if u.scheme != "udp" then Skip
      else match EndpointOf(u)
        case None => Fail
        case Some(e) => Add(e)
  }

  /** The neighbours the `Add` steps of `ws` contribute, in word order. */
  function AddsOf(ws: seq<string>, parse: string -> Option<Uri>): seq<Neighbor>
    decreases |ws|
  {
    if |ws| == 0 then []
    else
      match StepOf(ws[0], parse)
      case Add(e) => [Fresh(e)] + AddsOf(ws[1..], parse)
      case _ => AddsOf(ws[1..], parse)
  }

  lemma {:induction false} AddsOfConcat(a: seq<string>, b: seq<string>, parse: string -> Option<Uri>)
    ensures AddsOf(a + b, parse) == AddsOf(a, parse) + AddsOf(b, parse)
    decreases |a|
  {
    if |a| > 0 {
      assert (a + b)[0] == a[0];
      assert (a + b)[1..] == a[1..] + b;
      AddsOfConcat(a[1..], b, parse);
      match StepOf(a[0], parse)
      case Add(e) =>
        assert AddsOf(a + b, parse) == [Fresh(e)] + AddsOf(a[1..] + b, parse);
        assert AddsOf(a, parse) == [Fresh(e)] + AddsOf(a[1..], parse);
      case _ =>
        assert AddsOf(a + b, parse) == AddsOf(a[1..] + b, parse);
        assert AddsOf(a, parse) == AddsOf(a[1..], parse);
    } else {
      assert a + b == b;
    }
  }

  /** The stream runs word by word, so the words before the first failing
      one have been added when `init` throws. `ok` says none failed; then
      only `Add` steps have appended, each a fresh neighbour. */
  function Feed(ns: seq<Neighbor>, ws: seq<string>, parse: string -> Option<Uri>): (r: (bool, seq<Neighbor>))
    decreases |ws|
    ensures |ns| <= |r.1| && r.1[..|ns|] == ns
    ensures r.0 <==> forall i :: 0 <= i < |ws| ==> !StepOf(ws[i], parse).Fail?
    ensures forall i :: |ns| <= i < |r.1| ==>
      exists j :: 0 <= j < |ws| && StepOf(ws[j], parse) == Add(r.1[i].address) && r.1[i] == Fresh(r.1[i].address)
  {
    if |ws| == 0 then (true, ns)
    else
      assert forall i :: 0 < i < |ws| ==> ws[i] == ws[1..][i - 1];
      match StepOf(ws[0], parse)
      case Fail => (false, ns)
      case Skip => Feed(ns, ws[1..], parse)
      case Add(e) =>
        var r := Feed(ns + [Fresh(e)], ws[1..], parse);
        assert r.1[..|ns|] == (ns + [Fresh(e)])[..|ns|];
        r
  }

  /** The index of the first word whose step throws, or `|ws|`. */
  function FirstFail(ws: seq<string>, parse: string -> Option<Uri>): (k: nat)
    ensures k <= |ws|
    ensures k < |ws| ==> StepOf(ws[k], parse).Fail?
    ensures forall i :: 0 <= i < k ==> !StepOf(ws[i], parse).Fail?
    decreases |ws|
  {
    if |ws| == 0 || StepOf(ws[0], parse).Fail? then 0
    else
      assert forall i :: 0 < i < |ws| ==> ws[i] == ws[1..][i - 1];
      1 + FirstFail(ws[1..], parse)
  }

  /** `init` reports success iff no word fails. */
  lemma FeedOk(ns: seq<Neighbor>, ws: seq<string>, parse: string -> Option<Uri>)
    ensures Feed(ns, ws, parse).0 <==> FirstFail(ws, parse) == |ws|
  {
    var k := FirstFail(ws, parse);
    if k < |ws| {
      assert StepOf(ws[k], parse).Fail?;
    }
  }

  /** `init` appends exactly the neighbours of the words before the first
      failing one, in word order. */
  lemma {:induction false} FeedAppends(ns: seq<Neighbor>, ws: seq<string>, parse: string -> Option<Uri>)
    ensures Feed(ns, ws, parse).1 == ns + AddsOf(ws[..FirstFail(ws, parse)], parse)
    decreases |ws|
  {
    var k := FirstFail(ws, parse);
    if |ws| == 0 || StepOf(ws[0], parse).Fail? {
      assert ws[..k] == [];
    } else {
      var tl := ws[1..];
      var k' := FirstFail(tl, parse);
      assert k == k' + 1;
      assert ws[..k] == [ws[0]] + tl[..k'];
      AddsOfCons(ws[0], tl[..k'], parse);
      FeedAppends(ns + AddsOf([ws[0]], parse), tl, parse);
      FeedStep(ns, ws, parse);
    }
  }

  /** One word that does not throw appends its own neighbours. */
  lemma FeedStep(ns: seq<Neighbor>, ws: seq<string>, parse: string -> Option<Uri>)
    requires |ws| > 0 && !StepOf(ws[0], parse).Fail?
    ensures Feed(ns, ws, parse) == Feed(ns + AddsOf([ws[0]], parse), ws[1..], parse)
  {
    AddsOfCons(ws[0], [], parse);
    if StepOf(ws[0], parse).Skip? {
      assert ns + [] == ns;
    }
  }

  lemma AddsOfCons(w: string, t: seq<string>, parse: string -> Option<Uri>)
    ensures AddsOf([w] + t, parse) == AddsOf([w], parse) + AddsOf(t, parse)
    ensures AddsOf([w], parse) == if StepOf(w, parse).Add? then [Fresh(StepOf(w, parse).e)] else []
  {
    assert ([w] + t)[1..] == t;
    assert [w][1..] == [];
  }

  /** `init` appends without a presence check, so it keeps the addresses
      unique exactly as far as the udp words' endpoints are new and
      pairwise distinct; two words naming the same endpoint (say
      `udp://h:1` and `udp://h:1/`) leave a duplicate. */
  lemma FeedKeepsUnique(ns: seq<Neighbor>, ws: seq<string>, parse: string -> Option<Uri>)
    requires UniqueAddresses(ns + AddsOf(ws, parse))
    ensures UniqueAddresses(Feed(ns, ws, parse).1)
  {
    FeedIsPrefix(ns, ws, parse);
    UniquePrefix(ns + AddsOf(ws, parse), |Feed(ns, ws, parse).1|);
  }

  /** Whatever `init` leaves is a prefix of the list it would complete. */
  lemma FeedIsPrefix(ns: seq<Neighbor>, ws: seq<string>, parse: string -> Option<Uri>)
    ensures var r := Feed(ns, ws, parse).1;
      |r| <= |ns + AddsOf(ws, parse)| && r == (ns + AddsOf(ws, parse))[..|r|]
  {
    var k := FirstFail(ws, parse);
    FeedAppends(ns, ws, parse);
    AddsOfSplit(ws, k, parse);
    var xs, ys := AddsOf(ws[..k], parse), AddsOf(ws[k..], parse);
    assert (ns + xs + ys)[..|ns + xs|] == ns + xs;
    assert ns + (xs + ys) == ns + xs + ys;
  }

  lemma AddsOfSplit(ws: seq<string>, k: nat, parse: string -> Option<Uri>)
    requires k <= |ws|
    ensures AddsOf(ws, parse) == AddsOf(ws[..k], parse) + AddsOf(ws[k..], parse)
  {
    assert ws == ws[..k] + ws[k..];
    AddsOfConcat(ws[..k], ws[k..], parse);
  }

  lemma UniquePrefix(xs: seq<Neighbor>, n: nat)
    requires UniqueAddresses(xs) && n <= |xs|
    ensures UniqueAddresses(xs[..n])
  {
    forall i, j | 0 <= i < j < n ensures xs[..n][i].address != xs[..n][j].address {
      assert xs[..n][i] == xs[i] && xs[..n][j] == xs[j];
    }
  }

  /** Two words naming the same udp endpoint give two neighbours with one
      address. */
  lemma SameEndpointTwice(ns: seq<Neighbor>, a: string, b: string, parse: string -> Option<Uri>, e: Endpoint)
    requires StepOf(a, parse) == Add(e) && StepOf(b, parse) == Add(e)
    ensures !UniqueAddresses(Feed(ns, [a, b], parse).1)
  {
    assert [a, b][1..] == [b] && [b][1..] == [];
    assert Feed(ns, [a, b], parse) == Feed(ns + [Fresh(e)], [b], parse);
    assert Feed(ns + [Fresh(e)], [b], parse) == Feed(ns + [Fresh(e)] + [Fresh(e)], [], parse);
    var r := ns + [Fresh(e)] + [Fresh(e)];
    assert r[|ns|] == Fresh(e) && r[|ns| + 1] == Fresh(e);
  }

  /** The words `init` feeds: the configured string split at spaces,
      each distinct string once, empty ones dropped. */
  function Words(conf: string): (ws: seq<string>)
    ensures Distinct(ws)
    ensures forall w :: w in ws <==> w in Pieces(conf) && w != ""
  {
    var d := Dedup(Split(conf), {});
    SplitKeepsWords(conf);
    FilterKeepsDistinct(d, NonEmpty());
    Filter(d, NonEmpty())
  }

  /** The neighbour list `init` leaves: the words fed in order. */
  function Configure(ns: seq<Neighbor>, conf: string, parse: string -> Option<Uri>): (bool, seq<Neighbor>) {
    Feed(ns, Words(conf), parse)
  }

  /** Every neighbour `init` adds is fresh and comes from a non-empty word
      of the configured string whose URI has the udp scheme. */
  lemma ConfigureAddsUdp(ns: seq<Neighbor>, conf: string, parse: string -> Option<Uri>, i: int)
    requires |ns| <= i < |Configure(ns, conf, parse).1|
    ensures var n := Configure(ns, conf, parse).1[i];
      exists w :: && w in Pieces(conf) && w != ""
                  && parse(w).Some? && parse(w).value.scheme == "udp"
                  && EndpointOf(parse(w).value) == Some(n.address)
                  && n == Fresh(n.address)
  {
    var ws := Words(conf);
    var n := Configure(ns, conf, parse).1[i];
    var j :| 0 <= j < |ws| && StepOf(ws[j], parse) == Add(n.address) && n == Fresh(n.address);
    assert ws[j] in ws;
  }

  /** `init` keeps the list it started with and completes exactly when no
      non-empty word fails. */
  lemma ConfigureOk(ns: seq<Neighbor>, conf: string, parse: string -> Option<Uri>)
    ensures Configure(ns, conf, parse).1[..|ns|] == ns
    ensures Configure(ns, conf, parse).0 <==> forall w :: w in Pieces(conf) && w != "" ==> !StepOf(w, parse).Fail?
  {
    var ws := Words(conf);
    if !Configure(ns, conf, parse).0 {
      var j :| 0 <= j < |ws| && StepOf(ws[j], parse).Fail?;
      assert ws[j] in ws;
    } else {
      forall w | w in Pieces(conf) && w != "" ensures !StepOf(w, parse).Fail? {
        var j :| 0 <= j < |ws| && ws[j] == w;
      }
    }
  }

  /** A completed `init` has appended the neighbours of its words' udp
      endpoints, in word order, and nothing else. */
  lemma ConfigureAppends(ns: seq<Neighbor>, conf: string, parse: string -> Option<Uri>)
    ensures Configure(ns, conf, parse).0 ==> Configure(ns, conf, parse).1 == ns + AddsOf(Words(conf), parse)
  {
    var ws := Words(conf);
    FeedOk(ns, ws, parse);
    FeedAppends(ns, ws, parse);
    assert ws[..|ws|] == ws;
  }

  /** A completed `init` has added the endpoint of every non-empty
      configured word with the udp scheme. */
  lemma ConfigureAddsEvery(ns: seq<Neighbor>, conf: string, parse: string -> Option<Uri>, w: string)
    requires Configure(ns, conf, parse).0
    requires w in Pieces(conf) && w != "" && StepOf(w, parse).Add?
    ensures Has(Configure(ns, conf, parse).1, StepOf(w, parse).e)
  {
    var ws := Words(conf);
    var j :| 0 <= j < |ws| && ws[j] == w;
    FeedAddsEvery(ns, ws, parse, j);
  }

  lemma FeedAddsEvery(ns: seq<Neighbor>, ws: seq<string>, parse: string -> Option<Uri>, j: int)
    requires Feed(ns, ws, parse).0
    requires 0 <= j < |ws| && StepOf(ws[j], parse).Add?
    ensures Has(Feed(ns, ws, parse).1, StepOf(ws[j], parse).e)
  {
    FeedOk(ns, ws, parse);
    FeedAppends(ns, ws, parse);
    assert ws[..|ws|] == ws;
    AddsOfHas(ws, parse, j);
    var i :| 0 <= i < |AddsOf(ws, parse)| && AddsOf(ws, parse)[i].address == StepOf(ws[j], parse).e;
    assert Feed(ns, ws, parse).1[|ns| + i] == AddsOf(ws, parse)[i];
  }

  lemma {:induction false} AddsOfHas(ws: seq<string>, parse: string -> Option<Uri>, j: int)
    requires 0 <= j < |ws| && StepOf(ws[j], parse).Add?
    ensures Has(AddsOf(ws, parse), StepOf(ws[j], parse).e)
    decreases |ws|
  {
    if j > 0 {
      assert ws[1..][j - 1] == ws[j];
      AddsOfHas(ws[1..], parse, j - 1);
      var i :| 0 <= i < |AddsOf(ws[1..], parse)| && AddsOf(ws[1..], parse)[i].address == StepOf(ws[j], parse).e;
      if StepOf(ws[0], parse).Add? {
        assert AddsOf(ws, parse)[i + 1] == AddsOf(ws[1..], parse)[i];
      } else {
        assert AddsOf(ws, parse)[i] == AddsOf(ws[1..], parse)[i];
      }
    } else {
      assert AddsOf(ws, parse)[0] == Fresh(StepOf(ws[0], parse).e);
    }
  }
}
