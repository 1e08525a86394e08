/**
 * The `--listen` argument parser of limdberator/web.py (`listen_address`).
 *
 * The source matches the whole argument against one anchored regular
 * expression with three alternatives, tried in order: a Unix socket path
 * (anything containing a slash), a bracketed host followed by `:` and
 * digits, and a plain host followed by `:` and digits; it returns the
 * path, or a (host, port) pair.  `ParseListenAddress`
 * computes the same result directly from the last `:` of the argument;
 * the lemmas below state each alternative in terms of the argument's shape.
 */
module Web {
  import opened Wrappers

  /**
   * What `listen_address` returns: a socket path string, or a pair whose
   * host is `None` when the bracketed host group is empty.
   */
  datatype ListenAddress = UnixSocket(path: string) | Tcp(host: Option<string>, port: nat)

  predicate IsDigit(c: char)
  {
    '0' <= c <= '9'
  }

  /** A non-empty run of (ASCII) digits, what `(?P<port>\d+)` matches. */
  predicate IsPort(s: string)
  {
    s != [] && forall i :: 0 <= i < |s| ==> IsDigit(s[i])
  }

  /** `int(s, 10)` on a string of digits. */
  function DecimalValue(s: string): nat
    requires forall i :: 0 <= i < |s| ==> IsDigit(s[i])
  {
    if s == [] then 0
    else
      assert IsDigit(s[|s| - 1]);
      10 * DecimalValue(s[..|s| - 1]) + (s[|s| - 1] as int - '0' as int)
  }

  /** The position of the last `:` in `s`. */
  function LastColon(s: string): (r: Option<nat>)
    ensures r.Some? ==> r.value < |s| && s[r.value] == ':' && ':' !in s[r.value + 1..]
    ensures r.None? ==> ':' !in s
  {
    if s == [] then None
    else if s[|s| - 1] == ':' then Some(|s| - 1)
    else LastColon(s[..|s| - 1])
  }

  /**
   * `listen_address(arg)`, with `None` standing for the ValueError raised
   * when the expression does not match.  Python's `$` also matches just
   * before a final newline, and `.` never matches a newline: so a final
   * newline is ignored, and any other newline makes the match fail.
   */
  function ParseListenAddress(arg: string): (r: Option<ListenAddress>)
  {
    var body := if |arg| > 0 && arg[|arg| - 1] == '\n' then arg[..|arg| - 1] else arg;
    if '\n' in body then None
    else if '/' in body then Some(UnixSocket(body))
    else
      match LastColon(body)
      case None => None
      case Some(c) =>
        var port := body[c + 1..];
        if !IsPort(port) then None
        else
          var host := body[..c];
          if 2 <= |host| && host[0] == '[' && host[|host| - 1] == ']' then
            // `m["ipv6"] or m["host"]`: an empty ipv6 group is falsy and the host group is unset
            Some(Tcp(if |host| == 2 then None else Some(host[1..|host| - 1]), DecimalValue(port)))
          else
            Some(Tcp(Some(host), DecimalValue(port)))
  }

  // ---------------------------------------------------------------------
  // The alternatives of the expression, stated on the argument's shape
  // ---------------------------------------------------------------------

  /** A `:` at position `c` is the last one when only a port follows it. */
  lemma PortFollowsLastColon(s: string, c: nat)
    requires c < |s| && s[c] == ':' && IsPort(s[c + 1..])
    ensures LastColon(s) == Some(c)
  {
    assert s[c] in s;
    var r := LastColon(s).value;
    assert forall j :: r < j < |s| ==> s[j] == s[r + 1..][j - r - 1];
    assert forall j :: c < j < |s| ==> s[j] == s[c + 1..][j - c - 1] && IsDigit(s[j]);
  }

  /**
   * An argument containing `/` is a socket path and comes back unchanged,
   * whatever else it contains (web.py:108, 112, 119-120).
   */
  lemma SocketAlternative(arg: string)
    requires '\n' !in arg && '/' in arg
    ensures ParseListenAddress(arg) == Some(UnixSocket(arg))
  {
    if |arg| > 0 {
      assert arg[|arg| - 1] in arg;
    }
  }

  /**
   * Without `/`, `[X]:N` with N a non-empty run of digits gives `(X, int(N))`,
   * and `None` as host when X is empty; the bracketed alternative is tried
   * before the plain host (web.py:109, 111-112, 115-118).
   */
  lemma BracketAlternative(arg: string, x: string, n: string)
    requires '\n' !in arg && '/' !in arg
    requires arg == "[" + x + "]:" + n && IsPort(n)
    ensures ParseListenAddress(arg) == Some(Tcp(if x == "" then None else Some(x), DecimalValue(n)))
  {
    var c := |x| + 2;
    assert arg[c + 1..] == n;
    PortFollowsLastColon(arg, c);
    assert arg[|arg| - 1] in arg;
    var host := arg[..c];
    assert host == "[" + x + "]";
    assert host[1..|host| - 1] == x;
  }

  /**
   * Without `/` and not in bracketed form, `H:N` with N a non-empty run of
   * digits after the last `:` gives `(H, int(N))`; H may be empty
   * (web.py:110-112, 115-118).
   */
  lemma HostAlternative(arg: string, h: string, n: string)
    requires '\n' !in arg && '/' !in arg
    requires arg == h + ":" + n && IsPort(n)
    requires !(2 <= |h| && h[0] == '[' && h[|h| - 1] == ']')
    ensures ParseListenAddress(arg) == Some(Tcp(Some(h), DecimalValue(n)))
  {
    var c := |h|;
    assert arg[c + 1..] == n;
    PortFollowsLastColon(arg, c);
    assert arg[|arg| - 1] in arg;
    assert arg[..c] == h;
  }

  /** Some `:` of `s` is followed by nothing but a port. */
  predicate HasPortSuffix(s: string)
  {
    exists c :: 0 <= c < |s| && s[c] == ':' && IsPort(s[c + 1..])
  }

  /**
   * ValueError is raised exactly when the argument has neither a `/` nor a
   * `:<digits>` suffix (web.py:112-114).
   */
  lemma RejectedExactly(arg: string)
    requires '\n' !in arg
    ensures ParseListenAddress(arg).None? <==> '/' !in arg && !HasPortSuffix(arg)
  {
    if |arg| > 0 {
      assert arg[|arg| - 1] in arg;
    }
    if HasPortSuffix(arg) {
      var c :| 0 <= c < |arg| && arg[c] == ':' && IsPort(arg[c + 1..]);
      PortFollowsLastColon(arg, c);
    }
  }

  /** A final newline is ignored, as Python's `$` matches just before it. */
  lemma FinalNewlineIgnored(arg: string)
    requires '\n' !in arg
    ensures ParseListenAddress(arg + "\n") == ParseListenAddress(arg)
  {
    if |arg| > 0 {
      assert arg[|arg| - 1] in arg;
    }
    assert (arg + "\n")[..|arg|] == arg;
  }

  /** A newline anywhere but at the end makes the match fail, as `.` never matches it. */
  lemma InnerNewlineRejected(arg: string, k: nat)
    requires k < |arg| - 1 && arg[k] == '\n'
    ensures ParseListenAddress(arg) == None
  {
    assert arg[..|arg| - 1][k] == '\n';
    assert arg[k] in arg;
  }

  /** `int` accepts leading zeros: they do not change the port (web.py:111, 116). */
  lemma {:induction false} LeadingZeros(n: string)
    requires forall i :: 0 <= i < |n| ==> IsDigit(n[i])
    ensures DecimalValue("0" + n) == DecimalValue(n)
  {
    if n != [] {
      var m := n[..|n| - 1];
      assert ("0" + n)[..|n|] == "0" + m;
      LeadingZeros(m);
    }
  }

  /** An argument none of whose characters is a newline or a slash contains neither. */
  lemma PlainCharacters(arg: string)
    requires forall i :: 0 <= i < |arg| ==> arg[i] != '\n' && arg[i] != '/'
    ensures '\n' !in arg && '/' !in arg
  {
  }

  /** `80` is a port suffix and denotes 80; the examples below share it. */
  lemma PortEighty()
    ensures IsPort("80") && DecimalValue("80") == 80
  {
    assert "80"[..1] == "8";
  }

  /** `[::1]:80` takes the bracketed alternative, not the plain host one. */
  lemma BracketedExample()
    ensures ParseListenAddress("[::1]:80") == Some(Tcp(Some("::1"), 80))
  {
    var arg := "[::1]:80";
    PlainCharacters(arg);
    assert arg == "[" + "::1" + "]:" + "80";
    PortEighty();
    BracketAlternative(arg, "::1", "80");
  }

  /** `[]:80` matches the bracketed alternative with an empty group: the host is `None`. */
  lemma EmptyBracketsExample()
    ensures ParseListenAddress("[]:80") == Some(Tcp(None, 80))
  {
    var arg := "[]:80";
    PlainCharacters(arg);
    assert arg == "[" + "" + "]:" + "80";
    PortEighty();
    BracketAlternative(arg, "", "80");
  }

  /** An empty host is accepted and returned as the empty string. */
  lemma EmptyHostExample()
    ensures ParseListenAddress(":80") == Some(Tcp(Some(""), 80))
  {
    PortEighty();
    HostAlternative(":80", "", "80");
  }

  lemma DecimalExamples()
    ensures DecimalValue("99999") == 99999
    ensures DecimalValue("0080") == 80
  {
    assert "99999"[..4] == "9999" && "9999"[..3] == "999" && "999"[..2] == "99" && "99"[..1] == "9";
    assert "9"[..0] == "";
    assert DecimalValue("9") == 9;
    assert DecimalValue("99") == 99;
    assert DecimalValue("999") == 999;
    assert DecimalValue("9999") == 9999;
    assert "0080"[..3] == "008" && "008"[..2] == "00" && "00"[..1] == "0" && "0"[..0] == "";
    assert DecimalValue("0") == 0;
    assert DecimalValue("00") == 0;
    assert DecimalValue("008") == 8;
  }

  /** The port is not range-checked ... */
  lemma LargePortExample()
    ensures ParseListenAddress("h:99999") == Some(Tcp(Some("h"), 99999))
  {
    DecimalExamples();
    HostAlternative("h:99999", "h", "99999");
  }

  /** ... and may carry leading zeros. */
  lemma ZeroPaddedPortExample()
    ensures ParseListenAddress("h:0080") == Some(Tcp(Some("h"), 80))
  {
    DecimalExamples();
    HostAlternative("h:0080", "h", "0080");
  }

  /** A path with a port-like suffix is still a socket path. */
  lemma SocketExample()
    ensures ParseListenAddress("/run/x.sock:80") == Some(UnixSocket("/run/x.sock:80"))
  {
    SocketAlternative("/run/x.sock:80");
  }

  /** Arguments that raise ValueError: no port at all, an empty port, a port with a non-digit. */
  lemma NoPortRejected()
    ensures ParseListenAddress("localhost") == None
  {
    var arg := "localhost";
    assert forall i :: 0 <= i < |arg| ==> arg[i] != ':' && arg[i] != '/' && arg[i] != '\n';
    assert LastColon(arg).None?;
  }

  lemma EmptyPortRejected()
    ensures ParseListenAddress("h:") == None
  {
    RejectedExactly("h:");
    assert !IsPort("h:"[2..]);
  }

  lemma NonDigitPortRejected()
    ensures ParseListenAddress("h:8a") == None
  {
    RejectedExactly("h:8a");
    assert !IsPort("h:8a"[2..]);
  }
}
