/** `host:port` text as Go's `net.SplitHostPort` and `net.JoinHostPort`
    read and write it, and the registry's choice of a preferred endpoint:
    the first candidate that `SplitHostPort` accepts. */
module HostPort {
  import opened Results
  import opened Text

  /** Index of the last `c` in `s`, or -1: Go's `strings.LastIndexByte`. */
  function LastIndexOf(s: string, c: char): (i: int)
    ensures -1 <= i < |s|
    ensures i == -1 <==> !HasChar(s, c)
    ensures i >= 0 ==> s[i] == c && !HasChar(s[i + 1..], c)
    decreases |s|
  {
    if |s| == 0 then -1
    else if s[|s| - 1] == c then |s| - 1
    else
      var j := LastIndexOf(s[..|s| - 1], c);
      assert forall k | 0 <= k < |s| - 1 :: s[..|s| - 1][k] == s[k];
      if j >= 0 then
        assert s[j + 1..] == s[..|s| - 1][j + 1..] + [s[|s| - 1]];
        j
      else
        j
  }

  /** `net.SplitHostPort`: the text after the last ':' is the port; the
      host is either bracketed (`[h]:p`) or free of ':'; stray brackets are
      refused. The port is not checked to be numeric. */
  function SplitHostPort(s: string): (r: Option<(string, string)>)
  {
    var i := LastIndexOf(s, ':');
    if i < 0 then None
    else
      var host: Option<(string, nat, nat)> :=
        if s[0] == '[' then
          var end := IndexOf(s, ']');
          if end < 0 || end + 1 == |s| || end + 1 != i then None
          else Some((s[1..end], 1, end + 1))
        else if HasChar(s[..i], ':') then None
        else Some((s[..i], 0, 0));
      match host
      case None => None
      case Some((h, j, k)) =>
        if HasChar(s[j..], '[') || HasChar(s[k..], ']') then None
        else Some((h, s[i + 1..]))
  }

  predicate ValidHostPort(s: string) {
    SplitHostPort(s).Some?
  }

  /** `net.JoinHostPort`: brackets a host that contains ':'. */
  function JoinHostPort(host: string, port: string): string {
    if HasChar(host, ':') then "[" + host + "]:" + port else host + ":" + port
  }

  function Count(s: string, c: char): nat {
    if |s| == 0 then 0 else (if s[0] == c then 1 else 0) + Count(s[1..], c)
  }

  lemma {:induction false} CountConcat(a: string, b: string, c: char)
    ensures Count(a + b, c) == Count(a, c) + Count(b, c)
    decreases |a|
  {
    if |a| > 0 {
      assert (a + b)[0] == a[0];
      assert (a + b)[1..] == a[1..] + b;
      CountConcat(a[1..], b, c);
    } else {
      assert a + b == b;
    }
  }

  lemma {:induction false} CountZero(s: string, c: char)
    ensures Count(s, c) == 0 <==> !HasChar(s, c)
    decreases |s|
  {
    if |s| > 0 {
      CountZero(s[1..], c);
      assert HasChar(s, c) <==> s[0] == c || HasChar(s[1..], c) by {
        if HasChar(s[1..], c) {
          var k :| 0 <= k < |s| - 1 && s[1..][k] == c;
          assert s[k + 1] == c;
        }
        if HasChar(s, c) && s[0] != c {
          var k :| 0 <= k < |s| && s[k] == c;
          assert s[1..][k - 1] == c;
        }
      }
    }
  }

  /** Without brackets, SplitHostPort accepts exactly the strings with one
      ':' in them. */
  lemma BracketFreeSplit(s: string)
    requires !HasChar(s, '[') && !HasChar(s, ']')
    ensures ValidHostPort(s) <==> Count(s, ':') == 1
  {
    var i := LastIndexOf(s, ':');
    if i < 0 {
      CountZero(s, ':');
    } else {
      assert s == s[..i] + [s[i]] + s[i + 1..];
      CountConcat(s[..i] + [s[i]], s[i + 1..], ':');
      CountConcat(s[..i], [s[i]], ':');
      CountZero(s[i + 1..], ':');
      CountZero(s[..i], ':');
      assert Count([s[i]], ':') == 1;
      assert s[0] != '[';
      assert s[0..] == s;
    }
  }

  lemma HasCharConcat(a: string, b: string, c: char)
    ensures HasChar(a + b, c) <==> HasChar(a, c) || HasChar(b, c)
  {
    if HasChar(a + b, c) {
      var k :| 0 <= k < |a + b| && (a + b)[k] == c;
      if k >= |a| { assert b[k - |a|] == c; }
    }
    if HasChar(a, c) {
      var k :| 0 <= k < |a| && a[k] == c;
      assert (a + b)[k] == c;
    }
    if HasChar(b, c) {
      var k :| 0 <= k < |b| && b[k] == c;
      assert (a + b)[|a| + k] == c;
    }
  }

  lemma {:induction false} LastIndexOfBefore(x: string, c: char, y: string)
    requires !HasChar(y, c)
    ensures LastIndexOf(x + [c] + y, c) == |x|
    decreases |y|
  {
    var s := x + [c] + y;
    if |y| > 0 {
      assert s[|s| - 1] == y[|y| - 1];
      assert s[..|s| - 1] == x + [c] + y[..|y| - 1];
      assert !HasChar(y[..|y| - 1], c) by {
        HasCharConcat(y[..|y| - 1], [y[|y| - 1]], c);
        assert y == y[..|y| - 1] + [y[|y| - 1]];
      }
      LastIndexOfBefore(x, c, y[..|y| - 1]);
    }
  }

  /** A host without ':' is joined as `host:port`, which splits back. */
  lemma SplitJoinPlain(host: string, port: string)
    requires !HasChar(host, '[') && !HasChar(host, ']') && !HasChar(host, ':')
    requires !HasChar(port, '[') && !HasChar(port, ']') && !HasChar(port, ':')
    ensures SplitHostPort(host + ":" + port) == Some((host, port))
  {
    var s := host + ":" + port;
    var n := |host|;
    assert s == host + [':'] + port;
    LastIndexOfBefore(host, ':', port);
    assert s[..n] == host;
    assert s[n + 1..] == port;
    HasCharConcat(host, [':'], '[');
    HasCharConcat(host + [':'], port, '[');
    HasCharConcat(host, [':'], ']');
    HasCharConcat(host + [':'], port, ']');
    assert s[0] != '[';
    assert s[0..] == s;
  }

  /** Where SplitHostPort's searches land in `[host]:port`. */
  lemma BracketedLandmarks(host: string, port: string)
    requires !HasChar(host, '[') && !HasChar(host, ']')
    requires !HasChar(port, '[') && !HasChar(port, ']') && !HasChar(port, ':')
    ensures var s := "[" + host + "]:" + port;
      LastIndexOf(s, ':') == |host| + 2 && IndexOf(s, ']') == |host| + 1
  {
    var s := "[" + host + "]:" + port;
    assert s == (['['] + host + [']']) + [':'] + port;
    LastIndexOfBefore(['['] + host + [']'], ':', port);
    assert s == ['['] + host + ([']'] + ([':'] + port));
    HasCharConcat(['['], host, ']');
    IndexOfAfter(['['] + host, ']', [':'] + port);
  }

  /** The stray-bracket checks pass on `[host]:port`. */
  lemma BracketedNoStray(host: string, port: string)
    requires !HasChar(host, '[') && !HasChar(host, ']')
    requires !HasChar(port, '[') && !HasChar(port, ']') && !HasChar(port, ':')
    ensures var s := "[" + host + "]:" + port;
      !HasChar(s[1..], '[') && !HasChar(s[|host| + 2..], ']')
  {
    var s := "[" + host + "]:" + port;
    assert s[1..] == host + ([']'] + ([':'] + port));
    HasCharConcat([']'], [':'] + port, '[');
    HasCharConcat([':'], port, '[');
    HasCharConcat(host, [']'] + ([':'] + port), '[');
    assert s[|host| + 2..] == [':'] + port;
    HasCharConcat([':'], port, ']');
  }

  /** A host with ':' is joined as `[host]:port`, which splits back. */
  lemma SplitJoinBracketed(host: string, port: string)
    requires !HasChar(host, '[') && !HasChar(host, ']')
    requires !HasChar(port, '[') && !HasChar(port, ']') && !HasChar(port, ':')
    ensures SplitHostPort("[" + host + "]:" + port) == Some((host, port))
  {
    var n := |host|;
    var s := "[" + host + "]:" + port;
    BracketedLandmarks(host, port);
    BracketedNoStray(host, port);
    assert s[1..n + 1] == host;
    assert s[n + 3..] == port;
  }

  /** Joining a host and a port that hold no brackets (and a port that holds
      no ':') gives text that SplitHostPort takes apart into the same two. */
  lemma SplitJoin(host: string, port: string)
    requires !HasChar(host, '[') && !HasChar(host, ']')
    requires !HasChar(port, '[') && !HasChar(port, ']') && !HasChar(port, ':')
    ensures SplitHostPort(JoinHostPort(host, port)) == Some((host, port))
  {
    if HasChar(host, ':') {
      SplitJoinBracketed(host, port);
    } else {
      SplitJoinPlain(host, port);
    }
  }

  /** The preferred endpoint: the first candidate SplitHostPort accepts, or
      the empty string when none does. */
  function SelectEndpoint(eps: seq<string>): (e: string)
    ensures e == "" <==> forall i :: 0 <= i < |eps| ==> !ValidHostPort(eps[i])
    ensures e != "" ==> exists i :: 0 <= i < |eps| && eps[i] == e && ValidHostPort(e) && FirstValidAt(eps, i)
  {
    if |eps| == 0 then ""
    else if ValidHostPort(eps[0]) then
      assert FirstValidAt(eps, 0);
      eps[0]
    else
      var e := SelectEndpoint(eps[1..]);
      assert forall i :: 0 < i < |eps| ==> eps[i] == eps[1..][i - 1];
      assert e != "" ==> exists i :: 0 <= i < |eps| && eps[i] == e && ValidHostPort(e) && FirstValidAt(eps, i) by {
        if e != "" {
          var i :| 0 <= i < |eps| - 1 && eps[1..][i] == e && ValidHostPort(e) && FirstValidAt(eps[1..], i);
          assert FirstValidAt(eps, i + 1);
        }
      }
      e
  }

  /** No candidate before position `i` is accepted. */
  ghost predicate FirstValidAt(eps: seq<string>, i: nat)
    requires i < |eps|
  {
    forall j :: 0 <= j < i ==> !ValidHostPort(eps[j])
  }

  lemma SelectEndpointExample()
    ensures SelectEndpoint(["bad", "10.0.0.5:51820", "10.0.0.6:51820"]) == "10.0.0.5:51820"
  {
    var eps := ["bad", "10.0.0.5:51820", "10.0.0.6:51820"];
    assert !HasChar("bad", ':');
    assert !ValidHostPort(eps[0]);
    var host, port := "10.0.0.5", "51820";
    assert !HasChar(host, '[') && !HasChar(host, ']') && !HasChar(host, ':');
    assert !HasChar(port, '[') && !HasChar(port, ']') && !HasChar(port, ':');
    SplitJoinPlain(host, port);
    assert eps[1] == host + ":" + port;
    assert eps[1..][1..] == eps[2..];
  }
}
