/**
 * Concrete strings that `is_valid_url` accepts and rejects. Each accepted
 * string is shown to meet the declarative pattern by naming where its
 * scheme, host, port and tail end; the recognizer then agrees by
 * `IsValidUrlMeetsSpec`.
 */
module UrlExamples {
  import opened UrlValidator

  /** A domain name with a two-part host and no port or path. */
  lemma AcceptsPlainDomain()
    ensures IsValidUrl("https://a.com")
  {
    var u := "https://a.com";
    var h := u[8..13];
    assert h == "a.com";
    assert IsLabelAt(h, 0, 1) && IsTldAt(h, 2, 5);
    assert DomainStepSpec(h, 0, 1);
    assert u[..8] == "https://" && u[13..13] == [];
    assert SplitSpec(u, 8, 13, 13);
    IsValidUrlMeetsSpec(u);
  }

  /** Scheme and host match in any case. */
  lemma AcceptsUpperCase()
    ensures IsValidUrl("HTTP://A.COM/")
  {
    var u := "HTTP://A.COM/";
    var h := u[7..12];
    assert h == "A.COM";
    assert IsLabelAt(h, 0, 1) && IsTldAt(h, 2, 5);
    assert DomainStepSpec(h, 0, 1);
    assert u[..7] == "HTTP://" && u[12..12] == [] && u[12..] == "/";
    assert SplitSpec(u, 7, 12, 12);
    IsValidUrlMeetsSpec(u);
  }

  /** `localhost` with a port, as the default `BASE_URL`. */
  lemma AcceptsLocalhostWithPort()
    ensures IsValidUrl("http://localhost:5001")
  {
    var u := "http://localhost:5001";
    assert u[..7] == "http://" && u[7..16] == "localhost" && u[16..21] == ":5001" && u[21..] == [];
    assert SplitSpec(u, 7, 16, 21);
    IsValidUrlMeetsSpec(u);
  }

  /** A dotted quad with a path and query. */
  lemma AcceptsDottedQuadWithPath()
    ensures IsValidUrl("http://10.0.0.1/a?b=c")
  {
    var u := "http://10.0.0.1/a?b=c";
    var h := u[7..15];
    assert h == "10.0.0.1";
    assert Ipv4SplitSpec(h, 2, 4, 6);
    assert u[..7] == "http://" && u[15..15] == [] && u[15..] == "/a?b=c";
    assert SplitSpec(u, 7, 15, 15);
    IsValidUrlMeetsSpec(u);
  }

  /** `$` also matches before one final newline. */
  lemma AcceptsFinalNewline()
    ensures IsValidUrl("https://a.com\n")
  {
    AcceptsPlainDomain();
    var u := "https://a.com\n";
    assert u[..|u| - 1] == "https://a.com";
  }

  /** Text without a scheme, the empty string included, is refused. */
  lemma RejectsNoScheme()
    ensures !IsValidUrl("")
    ensures !IsValidUrl("not a url")
  {
    var u := "not a url";
    assert u[..8][0] == 'n' && u[..7][0] == 'n';
    assert SchemeLength(u) == 0;
  }

  /** Only `http` and `https` are accepted schemes. */
  lemma RejectsOtherScheme()
    ensures !IsValidUrl("ftp://example.com")
  {
    var u := "ftp://example.com";
    assert u[..8][0] == 'f' && u[..7][0] == 'f';
    assert SchemeLength(u) == 0;
  }

  /** A bare `?` after the host is no tail: `[/?]` needs at least one character after it. */
  lemma RejectsBareQuery()
    ensures !IsValidUrl("http://a.com?")
  {
    var u := "http://a.com?";
    assert u[..8][4] == ':';
    assert SchemeLength(u) == 7;
    ScanWhileUnique(u, 7, 12, HostChars);
    assert PortEnd(u, 12) == 12;
    assert u[12..] == "?";
  }

  /** Whitespace is not allowed in the path. */
  lemma RejectsSpaceInPath()
    ensures !IsValidUrl("http://a.com/a b")
  {
    var u := "http://a.com/a b";
    assert u[..8][4] == ':';
    assert SchemeLength(u) == 7;
    ScanWhileUnique(u, 7, 12, HostChars);
    assert PortEnd(u, 12) == 12;
    assert u[12..] == "/a b" && IsSpace(u[12..][2]);
  }

  /** An ASCII separator (here FS, 0x1C) counts as whitespace, so it ends the path and the match fails. */
  lemma RejectsSeparatorInPath()
    ensures !IsValidUrl("http://a.com/a\U{1c}b")
  {
    var u := "http://a.com/a\U{1c}b";
    assert u[..8][4] == ':';
    assert SchemeLength(u) == 7;
    ScanWhileUnique(u, 7, 12, HostChars);
    assert PortEnd(u, 12) == 12;
    assert u[12..] == "/a\U{1c}b" && IsSpace(u[12..][2]);
  }
}
