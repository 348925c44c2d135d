/**
 * Inputs to validar_ip and to the interface-name test, accepted and
 * refused. Each text is taken as a parameter equal to a literal and read
 * through its pieces, so that the split is reasoned about rather than
 * evaluated.
 */
module ValidationExamples {
  import opened Decimal
  import opened Text
  import opened Validation

  /** The pieces of a text made of four dot-free pieces joined by dots. */
  lemma Pieces4(ip: string, a: string, b: string, c: string, d: string)
    requires '.' !in a && '.' !in b && '.' !in c && '.' !in d
    requires ip == a + "." + b + "." + c + "." + d
    ensures Split(ip, '.') == [a, b, c, d]
  {
    var ps := [a, b, c, d];
    assert ps[1..] == [b, c, d] && ps[1..][1..] == [c, d] && ps[1..][1..][1..] == [d];
    assert Join([c, d], '.') == c + "." + d;
    assert Join([b, c, d], '.') == b + "." + c + "." + d;
    assert Join(ps, '.') == ip;
    SplitJoin(ps, '.');
  }

  lemma Pieces3(ip: string, a: string, b: string, c: string)
    requires '.' !in a && '.' !in b && '.' !in c
    requires ip == a + "." + b + "." + c
    ensures Split(ip, '.') == [a, b, c]
  {
    var ps := [a, b, c];
    assert ps[1..] == [b, c] && ps[1..][1..] == [c];
    assert Join([b, c], '.') == b + "." + c;
    assert Join(ps, '.') == ip;
    SplitJoin(ps, '.');
  }

  lemma Pieces5(ip: string, a: string, b: string, c: string, d: string, e: string)
    requires '.' !in a && '.' !in b && '.' !in c && '.' !in d && '.' !in e
    requires ip == a + "." + b + "." + c + "." + d + "." + e
    ensures Split(ip, '.') == [a, b, c, d, e]
  {
    var ps := [a, b, c, d, e];
    assert ps[1..] == [b, c, d, e] && ps[1..][1..] == [c, d, e];
    assert ps[1..][1..][1..] == [d, e] && ps[1..][1..][1..][1..] == [e];
    assert Join([d, e], '.') == d + "." + e;
    assert Join([c, d, e], '.') == c + "." + d + "." + e;
    assert Join([b, c, d, e], '.') == b + "." + c + "." + d + "." + e;
    assert Join(ps, '.') == ip;
    SplitJoin(ps, '.');
  }

  /** The decimal value of one, two or three digits. */
  lemma ValueSmall(s: string)
    requires 1 <= |s| <= 3 && IsDigits(s)
    ensures |s| == 1 ==> Value(s) == s[0] as int - '0' as int
    ensures |s| == 2 ==> Value(s) == 10 * (s[0] as int - '0' as int) + (s[1] as int - '0' as int)
    ensures |s| == 3 ==> Value(s) == 100 * (s[0] as int - '0' as int) + 10 * (s[1] as int - '0' as int) + (s[2] as int - '0' as int)
  {
    var t := s[..|s| - 1];
    if |s| >= 2 {
      var u := t[..|t| - 1];
      assert Value(u) == if |u| == 0 then 0 else u[0] as int - '0' as int;
    }
  }

  /** Four groups of value at most 255 joined by dots are accepted. */
  lemma QuadAccepted(ip: string, a: string, b: string, c: string, d: string)
    requires IsGroup(a) && IsGroup(b) && IsGroup(c) && IsGroup(d)
    requires Value(a) <= 255 && Value(b) <= 255 && Value(c) <= 255 && Value(d) <= 255
    requires ip == a + "." + b + "." + c + "." + d
    ensures ValidIp(ip)
  {
    NoDot(a);
    NoDot(b);
    NoDot(c);
    NoDot(d);
    Pieces4(ip, a, b, c, d);
    assert FourGroups(Split(ip, '.'));
    assert ip[|ip| - 1] == d[|d| - 1];
    assert Body(ip) == ip;
    ValidIpMeaning(ip);
  }

  /** The same text followed by one newline is accepted too. */
  lemma QuadNewlineAccepted(ipn: string, a: string, b: string, c: string, d: string)
    requires IsGroup(a) && IsGroup(b) && IsGroup(c) && IsGroup(d)
    requires Value(a) <= 255 && Value(b) <= 255 && Value(c) <= 255 && Value(d) <= 255
    requires ipn == a + "." + b + "." + c + "." + d + "\n"
    ensures ValidIp(ipn)
  {
    var ip := ipn[..|ipn| - 1];
    assert ipn == ip + "\n";
    QuadAccepted(ip, a, b, c, d);
    assert Body(ipn) == ip;
    ValidIpMeaning(ip);
    ValidIpMeaning(ipn);
  }

  lemma NoDot(g: string)
    requires IsGroup(g)
    ensures '.' !in g
  {
    assert forall i :: 0 <= i < |g| ==> g[i] != '.';
  }

  /** Leading zeros are read as decimal: 192.168.001.010 is accepted. */
  lemma LeadingZerosAccepted(ip: string)
    requires ip == "192.168.001.010"
    ensures ValidIp(ip)
  {
    HighOctets();
    PaddedOctets();
    QuadAccepted(ip, "192", "168", "001", "010");
  }

  lemma HighOctets()
    ensures IsGroup("192") && Value("192") == 192
    ensures IsGroup("168") && Value("168") == 168
  {
    ValueSmall("192");
    ValueSmall("168");
  }

  lemma PaddedOctets()
    ensures IsGroup("001") && Value("001") == 1
    ensures IsGroup("010") && Value("010") == 10
  {
    ValueSmall("001");
    ValueSmall("010");
  }

  /** A non-contiguous mask passes the same check. */
  lemma OddMaskAccepted(ip: string)
    requires ip == "255.0.255.0"
    ensures ValidIp(ip)
  {
    ValueSmall("255");
    ValueSmall("0");
    QuadAccepted(ip, "255", "0", "255", "0");
  }

  /** One trailing newline is accepted. */
  lemma TrailingNewlineAccepted(ip: string)
    requires ip == "1.2.3.4\n"
    ensures ValidIp(ip)
  {
    ValueSmall("1");
    ValueSmall("2");
    ValueSmall("3");
    ValueSmall("4");
    QuadNewlineAccepted(ip, "1", "2", "3", "4");
  }

  /** Two trailing newlines are not. */
  lemma TwoNewlinesRefused(ip: string)
    requires ip == "1.2.3.4\n\n"
    ensures !ValidIp(ip)
  {
    var b := "1.2.3.4\n";
    assert ip == b + ['\n'] && Body(ip) == b;
    Pieces4(b, "1", "2", "3", "4\n");
    assert !IsDigits("4\n") by {
      assert !IsDigit("4\n"[1]);
    }
    assert !IsGroup(Split(b, '.')[3]);
    assert !IsDottedQuad(b);
    ValidIpMeaning(ip);
  }

  /** A group above 255 is refused. */
  lemma LargeGroupRefused(ip: string)
    requires ip == "256.0.0.1"
    ensures !ValidIp(ip)
  {
    Pieces4(ip, "256", "0", "0", "1");
    ValueSmall("256");
    assert Body(ip) == ip;
    assert Split(ip, '.')[0] == "256";
    assert Value("256") == 256;
    assert !IsDottedQuad(ip);
    ValidIpMeaning(ip);
  }

  /** A group of four digits is refused, even with a small value. */
  lemma LongGroupRefused(ip: string)
    requires ip == "0001.0.0.1"
    ensures !ValidIp(ip)
  {
    Pieces4(ip, "0001", "0", "0", "1");
    assert Body(ip) == ip;
    assert !IsGroup(Split(ip, '.')[0]);
    assert !IsDottedQuad(ip);
    ValidIpMeaning(ip);
  }

  /** Three groups are refused. */
  lemma ThreeGroupsRefused(ip: string)
    requires ip == "1.2.3"
    ensures !ValidIp(ip)
  {
    Pieces3(ip, "1", "2", "3");
    assert Body(ip) == ip;
    assert !IsDottedQuad(ip);
    ValidIpMeaning(ip);
  }

  /** Five groups are refused. */
  lemma FiveGroupsRefused(ip: string)
    requires ip == "1.2.3.4.5"
    ensures !ValidIp(ip)
  {
    Pieces5(ip, "1", "2", "3", "4", "5");
    assert Body(ip) == ip;
    assert !IsDottedQuad(ip);
    ValidIpMeaning(ip);
  }

  /** An empty group is refused. */
  lemma EmptyGroupRefused(ip: string)
    requires ip == "1..3.4"
    ensures !ValidIp(ip)
  {
    Pieces4(ip, "1", "", "3", "4");
    assert Body(ip) == ip;
    assert !IsGroup(Split(ip, '.')[1]);
    assert !IsDottedQuad(ip);
    ValidIpMeaning(ip);
  }

  /** A leading space is refused, although int() would strip it. */
  lemma LeadingSpaceRefused(ip: string)
    requires ip == " 1.2.3.4"
    ensures !ValidIp(ip)
  {
    Pieces4(ip, " 1", "2", "3", "4");
    assert !IsDigit(" 1"[0]);
    assert Body(ip) == ip;
    assert !IsGroup(Split(ip, '.')[0]);
    assert !IsDottedQuad(ip);
    ValidIpMeaning(ip);
  }

  /** Abbreviated and full Cisco names with Fa, Gig or Serial are accepted. */
  lemma CiscoNamesAccepted()
    ensures IsInterfaceName("Fa0/0") && IsInterfaceName("FastEthernet0/1")
    ensures IsInterfaceName("GigabitEthernet0/1") && IsInterfaceName("Serial0/0/0")
    ensures IsInterfaceName("S0/0/1")
  {
    assert "Fa0/0"[..2] == "Fa" && "FastEthernet0/1"[..2] == "Fa";
    assert "GigabitEthernet0/1"[..3] == "Gig";
    assert "Serial0/0/0"[..1] == "S" && "S0/0/1"[..1] == "S";
  }

  /** The test is case-sensitive: lower-case names are refused. */
  lemma LowerCaseFaRefused()
    ensures !IsInterfaceName("fa0/0")
  {
    WithoutCapitalsRefused("fa0/0");
  }

  /** A capital F is not enough: FA0/0 holds neither Fa, Gig nor S. */
  lemma UpperCaseFARefused()
    ensures !IsInterfaceName("FA0/0")
  {
    var s := "FA0/0";
    if Contains(s, "Fa") {
      ContainsChars(s, "Fa", 1);
    }
    if Contains(s, "Gig") {
      ContainsChars(s, "Gig", 0);
    }
    if Contains(s, "S") {
      ContainsChars(s, "S", 0);
    }
  }

  /** The short form Gi of GigabitEthernet is refused. */
  lemma GiRefused()
    ensures !IsInterfaceName("Gi0/1")
  {
    var s := "Gi0/1";
    if Contains(s, "Fa") {
      ContainsChars(s, "Fa", 0);
    }
    if Contains(s, "Gig") {
      ContainsChars(s, "Gig", 2);
    }
    if Contains(s, "S") {
      ContainsChars(s, "S", 0);
    }
  }

  /** Any text with a capital S passes, whatever else it holds. */
  lemma AnyCapitalSAccepted(dato: string)
    requires 'S' in dato
    ensures IsInterfaceName(dato)
  {
    InterfaceNameMeaning(dato);
  }
}
