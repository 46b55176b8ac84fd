/**
 * Admission of a PUT caller by network address: `isAllowedIP` and the
 * decision taken by `IPFilterMiddleware` (main.go:211-235).
 *
 * Addresses are bit strings (32 bits for IPv4, 128 for IPv6) and a range is a
 * CIDR block in the sense of section 3.1 of RFC 4632: a network number and a
 * prefix length. The parsers of Go's `net` package are parameters: `parseIP`
 * answers None for a string that is not an address, `parseCIDR` answers None
 * for a string that is not a CIDR block (Go then hands back a nil `*IPNet`).
 */
module Admission {
  import opened Wrappers

  datatype Addr = Addr(bits: seq<bool>)

  /** A CIDR block: the first `prefixLen` bits of `network` are the routing prefix. */
  datatype IPNet = IPNet(network: seq<bool>, prefixLen: nat)

  /** `n.Contains(a)`: same address family and the same routing prefix. */
  predicate Contains(n: IPNet, a: Addr)
  {
    |a.bits| == |n.network| && n.prefixLen <= |n.network| &&
    a.bits[..n.prefixLen] == n.network[..n.prefixLen]
  }

  /** The netmask of a block: `prefixLen` one bits followed by zero bits. */
  function Mask(width: nat, prefixLen: nat): (m: seq<bool>)
    ensures |m| == width
    ensures forall i :: 0 <= i < width ==> (m[i] <==> i < prefixLen)
  {
    seq(width, i => i < prefixLen)
  }

  /** Bitwise AND of two bit strings of one width. */
  function And(x: seq<bool>, y: seq<bool>): (r: seq<bool>)
    requires |x| == |y|
    ensures |r| == |x|
    ensures forall i :: 0 <= i < |x| ==> (r[i] <==> x[i] && y[i])
  {
    seq(|x|, i requires 0 <= i < |x| => x[i] && y[i])
  }

  /**
   * Prefix containment agrees with the masked comparison that RFC 4632 and
   * Go's `Contains` use: address AND mask equals network AND mask.
   */
  lemma ContainsIsMaskedEquality(n: IPNet, a: Addr)
    requires n.prefixLen <= |n.network|
    ensures Contains(n, a) <==>
              |a.bits| == |n.network| &&
              And(a.bits, Mask(|n.network|, n.prefixLen)) == And(n.network, Mask(|n.network|, n.prefixLen))
  {
  }

  /** A caller address that did not parse (a nil `net.IP`) lies in no block. */
  predicate Matches(n: IPNet, client: Option<Addr>)
  {
    client.Some? && Contains(n, client.value)
  }

  /** What `isAllowedIP` can do: return a boolean, or dereference a nil `*IPNet`. */
  datatype CheckResult = Returned(allowed: bool) | NilDereference

  /**
   * The outcome of `isAllowedIP` on an already-parsed caller address: the
   * ranges are tried in order, the first block containing the caller ends the
   * walk with true, and a range that does not parse ends it with a nil
   * dereference.
   */
  function Check(client: Option<Addr>, allowed: seq<string>, parseCIDR: string -> Option<IPNet>): (r: CheckResult)
    ensures allowed == [] ==> r == Returned(false)
    ensures r == Returned(true) ==> Admits(client, allowed, parseCIDR)
    ensures client.None? ==> r != Returned(true)
    ensures AllParse(allowed, parseCIDR) ==> r != NilDereference
    decreases |allowed|
  {
    if allowed == [] then Returned(false)
    else
      match parseCIDR(allowed[0])
      case None => NilDereference
      case Some(n) => if Matches(n, client) then Returned(true) else Check(client, allowed[1..], parseCIDR)
  }

  /** The range string `s` parses and its block contains the caller. */
  predicate InRange(client: Option<Addr>, s: string, parseCIDR: string -> Option<IPNet>)
  {
    parseCIDR(s).Some? && Matches(parseCIDR(s).value, client)
  }

  /** The order-free reference: some range of the list contains the caller. */
  predicate Admits(client: Option<Addr>, allowed: seq<string>, parseCIDR: string -> Option<IPNet>)
  {
    exists i :: 0 <= i < |allowed| && InRange(client, allowed[i], parseCIDR)
  }

  /** Every range of the list is a well-formed CIDR block. */
  predicate AllParse(allowed: seq<string>, parseCIDR: string -> Option<IPNet>)
  {
    forall i :: 0 <= i < |allowed| ==> parseCIDR(allowed[i]).Some?
  }

  /** The first `k` ranges parse and none of them contains the caller. */
  predicate PassedBefore(client: Option<Addr>, allowed: seq<string>, parseCIDR: string -> Option<IPNet>, k: nat)
    requires k <= |allowed|
  {
    forall j :: 0 <= j < k ==> parseCIDR(allowed[j]).Some? && !Matches(parseCIDR(allowed[j]).value, client)
  }

  lemma {:induction false} PassedBeforeShift(client: Option<Addr>, allowed: seq<string>, parseCIDR: string -> Option<IPNet>, k: nat)
    requires 0 < |allowed| && k < |allowed|
    ensures PassedBefore(client, allowed, parseCIDR, k + 1) <==>
              (parseCIDR(allowed[0]).Some? && !Matches(parseCIDR(allowed[0]).value, client) &&
               PassedBefore(client, allowed[1..], parseCIDR, k))
  {
  }

  /**
   * The three outcomes of `isAllowedIP`, each in closed form: true exactly
   * when a range contains the caller and every earlier range parsed and
   * missed; a nil dereference exactly when a malformed range is reached
   * before any match; false exactly when every range parsed and missed.
   */
  lemma {:induction false} CheckOutcomes(client: Option<Addr>, allowed: seq<string>, parseCIDR: string -> Option<IPNet>)
    ensures Check(client, allowed, parseCIDR) == Returned(true) <==>
              exists i :: 0 <= i < |allowed| && PassedBefore(client, allowed, parseCIDR, i) &&
                          InRange(client, allowed[i], parseCIDR)
    ensures Check(client, allowed, parseCIDR) == NilDereference <==>
              exists i :: 0 <= i < |allowed| && PassedBefore(client, allowed, parseCIDR, i) &&
                          parseCIDR(allowed[i]).None?
    ensures Check(client, allowed, parseCIDR) == Returned(false) <==>
              PassedBefore(client, allowed, parseCIDR, |allowed|)
    decreases |allowed|
  {
    if allowed == [] {
      return;
    }
    var rest := allowed[1..];
    CheckOutcomes(client, rest, parseCIDR);
    assert PassedBefore(client, allowed, parseCIDR, 0);
    PassedBeforeShift(client, allowed, parseCIDR, |rest|);
    assert rest[..] == rest;
    if parseCIDR(allowed[0]).None? || Matches(parseCIDR(allowed[0]).value, client) {
      forall i | 0 < i < |allowed|
        ensures !PassedBefore(client, allowed, parseCIDR, i)
      {
        assert !(parseCIDR(allowed[0]).Some? && !Matches(parseCIDR(allowed[0]).value, client));
      }
    } else {
      forall i | 0 < i < |allowed|
        ensures PassedBefore(client, allowed, parseCIDR, i) == PassedBefore(client, rest, parseCIDR, i - 1)
        ensures allowed[i] == rest[i - 1]
      {
        PassedBeforeShift(client, allowed, parseCIDR, i - 1);
      }
      if Check(client, rest, parseCIDR) == Returned(true) {
        var i :| 0 <= i < |rest| && PassedBefore(client, rest, parseCIDR, i) && InRange(client, rest[i], parseCIDR);
        assert PassedBefore(client, allowed, parseCIDR, i + 1) && InRange(client, allowed[i + 1], parseCIDR);
      }
      if Check(client, rest, parseCIDR) == NilDereference {
        var i :| 0 <= i < |rest| && PassedBefore(client, rest, parseCIDR, i) && parseCIDR(rest[i]).None?;
        assert PassedBefore(client, allowed, parseCIDR, i + 1) && parseCIDR(allowed[i + 1]).None?;
      }
    }
  }

  /**
   * With every range well formed, `isAllowedIP` is the existential: it returns
   * true iff some range contains the caller, and never dereferences nil.
   */
  lemma {:induction false} CheckIsAdmitsWhenWellFormed(client: Option<Addr>, allowed: seq<string>, parseCIDR: string -> Option<IPNet>)
    requires AllParse(allowed, parseCIDR)
    ensures Check(client, allowed, parseCIDR) == Returned(Admits(client, allowed, parseCIDR))
  {
    CheckOutcomes(client, allowed, parseCIDR);
    if Admits(client, allowed, parseCIDR) {
      var i :| 0 <= i < |allowed| && InRange(client, allowed[i], parseCIDR);
      assert !PassedBefore(client, allowed, parseCIDR, |allowed|) by {
        assert !(parseCIDR(allowed[i]).Some? && !Matches(parseCIDR(allowed[i]).value, client));
      }
    } else {
      assert PassedBefore(client, allowed, parseCIDR, |allowed|) by {
        forall j | 0 <= j < |allowed|
          ensures parseCIDR(allowed[j]).Some? && !Matches(parseCIDR(allowed[j]).value, client)
        {
          assert !InRange(client, allowed[j], parseCIDR);
        }
      }
    }
  }

  /** A caller whose address does not parse is never admitted. */
  lemma {:induction false} UnparsedCallerNeverAdmitted(allowed: seq<string>, parseCIDR: string -> Option<IPNet>)
    ensures Check(None, allowed, parseCIDR) != Returned(true)
    ensures !Admits(None, allowed, parseCIDR)
    decreases |allowed|
  {
    if allowed != [] {
      UnparsedCallerNeverAdmitted(allowed[1..], parseCIDR);
    }
  }

  lemma {:induction false} AdmitsSubsumed(client: Option<Addr>, xs: seq<string>, ys: seq<string>, parseCIDR: string -> Option<IPNet>)
    requires multiset(xs) <= multiset(ys)
    requires Admits(client, xs, parseCIDR)
    ensures Admits(client, ys, parseCIDR)
  {
    var i :| 0 <= i < |xs| && InRange(client, xs[i], parseCIDR);
    assert xs[i] in multiset(xs);
    assert xs[i] in ys;
    var j :| 0 <= j < |ys| && ys[j] == xs[i];
    assert InRange(client, ys[j], parseCIDR);
  }

  /** The reference decision does not depend on the order of the ranges. */
  lemma AdmitsIgnoresOrder(client: Option<Addr>, xs: seq<string>, ys: seq<string>, parseCIDR: string -> Option<IPNet>)
    requires multiset(xs) == multiset(ys)
    ensures Admits(client, xs, parseCIDR) == Admits(client, ys, parseCIDR)
  {
    if Admits(client, xs, parseCIDR) {
      AdmitsSubsumed(client, xs, ys, parseCIDR);
    }
    if Admits(client, ys, parseCIDR) {
      AdmitsSubsumed(client, ys, xs, parseCIDR);
    }
  }

  /**
   * Reordering a list of well-formed ranges does not change what
   * `isAllowedIP` returns.
   */
  lemma {:induction false} CheckIgnoresOrderWhenWellFormed(client: Option<Addr>, xs: seq<string>, ys: seq<string>, parseCIDR: string -> Option<IPNet>)
    requires AllParse(xs, parseCIDR)
    requires multiset(xs) == multiset(ys)
    ensures Check(client, xs, parseCIDR) == Check(client, ys, parseCIDR)
  {
    assert AllParse(ys, parseCIDR) by {
      forall j | 0 <= j < |ys|
        ensures parseCIDR(ys[j]).Some?
      {
        assert ys[j] in multiset(xs);
        var i :| 0 <= i < |xs| && xs[i] == ys[j];
      }
    }
    CheckIsAdmitsWhenWellFormed(client, xs, parseCIDR);
    CheckIsAdmitsWhenWellFormed(client, ys, parseCIDR);
    AdmitsIgnoresOrder(client, xs, ys, parseCIDR);
  }

  /**
   * With a malformed range in the list the order does matter: behind a
   * matching block the malformed range is never reached, in front of it the
   * walk dereferences nil.
   */
  lemma MalformedRangeMakesOrderMatter(client: Option<Addr>, good: string, bad: string, parseCIDR: string -> Option<IPNet>)
    requires InRange(client, good, parseCIDR) && parseCIDR(bad).None?
    ensures Check(client, [good, bad], parseCIDR) == Returned(true)
    ensures Check(client, [bad, good], parseCIDR) == NilDereference
  {
  }

  /**
   * `isAllowedIP`: parse the caller, then walk the ranges in order; the
   * first block containing the caller returns true, a range that does not
   * parse makes `ipNet.Contains` dereference nil.
   */
  method IsAllowedIP(ip: string, allowed: seq<string>, parseIP: string -> Option<Addr>, parseCIDR: string -> Option<IPNet>)
    returns (r: CheckResult)
    ensures r == Check(parseIP(ip), allowed, parseCIDR)
    ensures AllParse(allowed, parseCIDR) ==> r == Returned(Admits(parseIP(ip), allowed, parseCIDR))
    ensures parseIP(ip).None? ==> r != Returned(true)
    ensures allowed == [] ==> r == Returned(false)
  {
    var clientIP := parseIP(ip);
    if AllParse(allowed, parseCIDR) {
      CheckIsAdmitsWhenWellFormed(clientIP, allowed, parseCIDR);
    }
    if clientIP.None? {
      UnparsedCallerNeverAdmitted(allowed, parseCIDR);
    }
    var i := 0;
    while i < |allowed|
      invariant 0 <= i <= |allowed|
      invariant Check(clientIP, allowed[i..], parseCIDR) == Check(clientIP, allowed, parseCIDR)
    {
      assert allowed[i..][0] == allowed[i] && allowed[i..][1..] == allowed[i + 1..];
      var ipNet := parseCIDR(allowed[i]);
      if ipNet.None? {
        return NilDereference;
      }
      if Matches(ipNet.value, clientIP) {
        return Returned(true);
      }
      i := i + 1;
    }
    return Returned(false);
  }

  /** What `IPFilterMiddleware` does with the request. */
  datatype Decision =
    | AbortForbidden   // respond 403 "Access denied"; the handler does not run
    | Next             // hand the request on to the PUT handler
    | Panicked         // the nil dereference unwinds the request; the handler does not run

  /** The middleware's decision on the outcome of `isAllowedIP`. */
  function Filter(r: CheckResult): (d: Decision)
    ensures d == Next <==> r == Returned(true)
    ensures d == AbortForbidden <==> r == Returned(false)
    ensures d == Panicked <==> r == NilDereference
  {
    match r
    case Returned(ok) => if ok then Next else AbortForbidden
    case NilDereference => Panicked
  }

  /**
   * The middleware hands the request on iff the caller is admitted. Over
   * well-formed ranges it answers 403 exactly when no range contains the
   * caller; a caller whose address does not parse never reaches the handler.
   */
  lemma {:induction false} FilterAdmitsIff(client: Option<Addr>, allowed: seq<string>, parseCIDR: string -> Option<IPNet>)
    ensures Filter(Check(client, allowed, parseCIDR)) == Next <==> Check(client, allowed, parseCIDR) == Returned(true)
    ensures AllParse(allowed, parseCIDR) ==>
              (Filter(Check(client, allowed, parseCIDR)) == Next <==> Admits(client, allowed, parseCIDR)) &&
              (Filter(Check(client, allowed, parseCIDR)) == AbortForbidden <==> !Admits(client, allowed, parseCIDR))
    ensures client.None? ==> Filter(Check(client, allowed, parseCIDR)) != Next
  {
    if AllParse(allowed, parseCIDR) {
      CheckIsAdmitsWhenWellFormed(client, allowed, parseCIDR);
    }
    if client.None? {
      UnparsedCallerNeverAdmitted(allowed, parseCIDR);
    }
  }
}
