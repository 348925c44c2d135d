/**
 * The input checks of Comandos.py: validar_ip (lines 4-11), which accepts
 * a dotted quad through a regular expression, a split on '.' and int() on
 * each piece, and the interface-name test of pedir_dato (line 22).
 */
module Validation {
  import opened Wrappers
  import opened Decimal
  import opened Text

  // ---------------------------------------------------------------------
  // The pattern ^([0-9]{1,3}\.){3}[0-9]{1,3}$

  /**
   * The pattern read left to right: `dots` separators seen so far and
   * `run` digits in the current group. A fourth digit in a group, a
   * fourth dot, a dot after an empty group or any other character
   * rejects; the end of the text accepts after three dots and a
   * non-empty last group.
   */
  predicate Scan(s: string, dots: nat, run: nat)
    decreases |s|
  {
    if s == [] then dots == 3 && run >= 1
    else if IsDigit(s[0]) then run < 3 && Scan(s[1..], dots, run + 1)
    else if s[0] == '.' then run >= 1 && dots < 3 && Scan(s[1..], dots + 1, 0)
    else false
  }

  /** The whole text matches the pattern without its `$` allowance. */
  predicate FullMatch(s: string) {
    Scan(s, 0, 0)
  }

  /**
   * re.match(patron, ip): anchored at the start, and `$` matches at the
   * end of the text or just before a newline that ends it.
   */
  predicate PatternMatches(ip: string) {
    FullMatch(ip) || (|ip| > 0 && ip[|ip| - 1] == '\n' && FullMatch(ip[..|ip| - 1]))
  }

  /** int(p) for the texts the pattern lets through; None stands for ValueError. */
  function IntOf(p: string): Option<nat> {
    var t := Strip(p);
    if |t| > 0 && IsDigits(t) then Some(Value(t)) else None
  }

  /** all(0 <= int(parte) <= 255 for parte in partes) */
  predicate AllOctets(partes: seq<string>) {
    forall k :: 0 <= k < |partes| ==> IntOf(partes[k]).Some? && IntOf(partes[k]).value <= 255
  }

  /** validar_ip(ip) */
  predicate ValidIp(ip: string) {
    PatternMatches(ip) && AllOctets(Split(ip, '.'))
  }

  // ---------------------------------------------------------------------
  // What validar_ip accepts

  /** One to three ASCII digits. */
  predicate IsGroup(g: string) {
    1 <= |g| <= 3 && IsDigits(g)
  }

  /** Four groups of one to three digits each. */
  predicate FourGroups(ps: seq<string>) {
    |ps| == 4 && forall k :: 0 <= k < |ps| ==> IsGroup(ps[k])
  }

  /** Four dot-separated groups of one to three digits, each of value at most 255. */
  predicate IsDottedQuad(s: string) {
    var ps := Split(s, '.');
    FourGroups(ps) && forall k :: 0 <= k < |ps| ==> Value(ps[k]) <= 255
  }

  /** The text without one final newline, if it has one. */
  function Body(ip: string): (b: string)
    ensures b == ip || (ip == b + ['\n'])
  {
    if |ip| > 0 && ip[|ip| - 1] == '\n' then ip[..|ip| - 1] else ip
  }

  /** The pieces the scanner has still to see, given its state. */
  predicate Shape(ps: seq<string>, dots: nat, run: nat)
    requires |ps| >= 1
  {
    dots + |ps| == 4 && 1 <= run + |ps[0]| <= 3 && IsDigits(ps[0])
    && forall k :: 1 <= k < |ps| ==> IsGroup(ps[k])
  }

  /** The scanner accepts exactly the texts whose pieces have the expected shape. */
  lemma {:induction false} ScanShape(s: string, dots: nat, run: nat)
    requires run <= 3
    ensures Scan(s, dots, run) <==> Shape(Split(s, '.'), dots, run)
    decreases |s|
  {
    if s != [] {
      var tail := Split(s[1..], '.');
      if IsDigit(s[0]) {
        if run < 3 {
          ScanShape(s[1..], dots, run + 1);
        }
        DigitShape(s[0], tail, dots, run);
      } else if s[0] == '.' {
        ScanShape(s[1..], dots + 1, 0);
        DotShape(tail, dots, run);
      } else {
        assert !IsDigits([s[0]] + tail[0]) by {
          assert ([s[0]] + tail[0])[0] == s[0];
        }
      }
    }
  }

  lemma DigitShape(c: char, tail: seq<string>, dots: nat, run: nat)
    requires IsDigit(c) && |tail| >= 1 && run <= 3
    ensures Shape([[c] + tail[0]] + tail[1..], dots, run) <==> run < 3 && Shape(tail, dots, run + 1)
  {
    var ps := [[c] + tail[0]] + tail[1..];
    assert |ps| == |tail|;
    assert IsDigits(ps[0]) <==> IsDigits(tail[0]) by {
      if IsDigits(tail[0]) {
        assert forall i :: 1 <= i < |ps[0]| ==> ps[0][i] == tail[0][i - 1];
      }
      if IsDigits(ps[0]) {
        assert forall i :: 0 <= i < |tail[0]| ==> tail[0][i] == ps[0][i + 1];
      }
    }
    assert forall k :: 1 <= k < |ps| ==> ps[k] == tail[k];
  }

  lemma DotShape(tail: seq<string>, dots: nat, run: nat)
    requires |tail| >= 1 && run <= 3
    ensures Shape([[]] + tail, dots, run) <==> run >= 1 && dots < 3 && Shape(tail, dots + 1, 0)
  {
    var ps := [[]] + tail;
    assert forall k :: 1 <= k < |ps| ==> ps[k] == tail[k - 1];
    if Shape(ps, dots, run) {
      assert IsGroup(ps[1]);
      forall k | 1 <= k < |tail|
        ensures IsGroup(tail[k])
      {
        assert IsGroup(ps[k + 1]);
      }
    }
    if run >= 1 && dots < 3 && Shape(tail, dots + 1, 0) {
      forall k | 1 <= k < |ps|
        ensures IsGroup(ps[k])
      {
        if k > 1 {
          assert IsGroup(tail[k - 1]);
        }
      }
    }
  }

  /** The pattern, taken whole, accepts exactly four groups of one to three digits. */
  lemma FullMatchGroups(s: string)
    ensures FullMatch(s) <==> FourGroups(Split(s, '.'))
  {
    ScanShape(s, 0, 0);
  }

  /** A text ending in a newline never matches the pattern whole. */
  lemma NoFullMatchWithNewline(s: string)
    ensures !FullMatch(s + ['\n'])
  {
    var ps := Split(s, '.');
    SplitSnoc(s, '\n', '.');
    FullMatchGroups(s + ['\n']);
    var last := ps[|ps| - 1] + ['\n'];
    var qs := Split(s + ['\n'], '.');
    assert qs[|qs| - 1] == last;
    assert !IsDigits(last) by {
      assert last[|last| - 1] == '\n';
    }
  }

  /** int() of a group, with or without a trailing newline, is its decimal value. */
  lemma GroupInt(g: string)
    requires IsGroup(g)
    ensures IntOf(g) == Some(Value(g)) && IntOf(g + ['\n']) == Some(Value(g))
  {
    StripUntrimmed(g);
    StripTrailing(g, '\n');
  }

  /** validar_ip accepts exactly a dotted quad, optionally followed by one newline. */
  lemma ValidIpMeaning(ip: string)
    ensures ValidIp(ip) <==> IsDottedQuad(Body(ip))
  {
    var b := Body(ip);
    var ps := Split(b, '.');
    if b == ip {
      FullMatchGroups(ip);
      assert PatternMatches(ip) <==> FullMatch(ip);
      if FullMatch(ip) {
        GroupsInt(ps);
      }
    } else {
      NoFullMatchWithNewline(b);
      FullMatchGroups(b);
      assert PatternMatches(ip) <==> FullMatch(b);
      if FullMatch(b) {
        SplitSnoc(b, '\n', '.');
        GroupsInt(ps);
        NewlinePiece(ps);
      }
    }
  }

  lemma GroupsInt(ps: seq<string>)
    requires FourGroups(ps)
    ensures AllOctets(ps) <==> forall k :: 0 <= k < |ps| ==> Value(ps[k]) <= 255
  {
    forall k | 0 <= k < |ps|
      ensures IntOf(ps[k]) == Some(Value(ps[k]))
    {
      GroupInt(ps[k]);
    }
  }

  /** A newline on the last piece changes none of the values int() reads. */
  lemma NewlinePiece(ps: seq<string>)
    requires FourGroups(ps)
    ensures var qs := ps[..3] + [ps[3] + ['\n']];
      AllOctets(qs) <==> AllOctets(ps)
  {
    var qs := ps[..3] + [ps[3] + ['\n']];
    GroupInt(ps[3]);
    assert forall k :: 0 <= k < 3 ==> qs[k] == ps[k];
  }

  /** Whenever the pattern matches, every piece is a number, so int() never raises. */
  lemma MatchedPiecesParse(ip: string)
    requires PatternMatches(ip)
    ensures forall k :: 0 <= k < |Split(ip, '.')| ==> IntOf(Split(ip, '.')[k]).Some?
  {
    if FullMatch(ip) {
      FullMatchGroups(ip);
      GroupsParse(Split(ip, '.'));
    } else {
      var b := ip[..|ip| - 1];
      assert ip == b + ['\n'];
      NewlineGroupsParse(b);
    }
  }

  lemma GroupsParse(ps: seq<string>)
    requires FourGroups(ps)
    ensures forall k :: 0 <= k < |ps| ==> IntOf(ps[k]).Some?
  {
    forall k | 0 <= k < |ps|
      ensures IntOf(ps[k]).Some?
    {
      GroupInt(ps[k]);
    }
  }

  lemma NewlineGroupsParse(b: string)
    requires FullMatch(b)
    ensures var qs := Split(b + ['\n'], '.');
      forall k :: 0 <= k < |qs| ==> IntOf(qs[k]).Some?
  {
    var ps := Split(b, '.');
    FullMatchGroups(b);
    SplitSnoc(b, '\n', '.');
    GroupsParse(ps);
    GroupInt(ps[3]);
    var qs := Split(b + ['\n'], '.');
    assert qs == ps[..3] + [ps[3] + ['\n']];
    assert forall k :: 0 <= k < 3 ==> qs[k] == ps[k];
  }

  // ---------------------------------------------------------------------
  // Printing an address and reading it back

  /** The four numbers written in decimal, separated by dots. */
  function FormatIp(a: nat, b: nat, c: nat, d: nat): string {
    Join([Digits(a), Digits(b), Digits(c), Digits(d)], '.')
  }

  lemma {:induction false} DigitsShort(n: nat)
    requires n < 1000
    ensures IsGroup(Digits(n)) && '.' !in Digits(n)
  {
    if n >= 10 {
      DigitsShort(n / 10);
    }
  }

  /** Any four numbers up to 255, printed, are accepted, and their pieces read back as the numbers. */
  lemma FormatIpValid(a: nat, b: nat, c: nat, d: nat)
    requires a <= 255 && b <= 255 && c <= 255 && d <= 255
    ensures ValidIp(FormatIp(a, b, c, d))
    ensures var ps := Split(FormatIp(a, b, c, d), '.');
      FourGroups(ps) && Value(ps[0]) == a && Value(ps[1]) == b && Value(ps[2]) == c && Value(ps[3]) == d
  {
    var ps := [Digits(a), Digits(b), Digits(c), Digits(d)];
    DigitsShort(a);
    DigitsShort(b);
    DigitsShort(c);
    DigitsShort(d);
    SplitJoin(ps, '.');
    ValueOfDigits(a);
    ValueOfDigits(b);
    ValueOfDigits(c);
    ValueOfDigits(d);
    assert FourGroups(ps);
    FullMatchGroups(FormatIp(a, b, c, d));
    GroupsInt(ps);
  }

  // ---------------------------------------------------------------------
  // The interface-name test of pedir_dato

  /** 'Fa' in dato or 'Gig' in dato or 'S' in dato: case-sensitive substrings. */
  predicate IsInterfaceName(dato: string) {
    Contains(dato, "Fa") || Contains(dato, "Gig") || Contains(dato, "S")
  }

  /** `c in s` for a one-character string is membership of the character. */
  lemma ContainsChar(s: string, c: char)
    ensures Contains(s, [c]) <==> c in s
  {
    ContainsAt(s, [c]);
    if c in s {
      var i :| 0 <= i < |s| && s[i] == c;
      assert OccursAt(s, [c], i);
    }
    if Contains(s, [c]) {
      ContainsChars(s, [c], 0);
    }
  }

  /**
   * A name is accepted exactly when it has a capital S anywhere, or "Fa"
   * or "Gig" at some position.
   */
  lemma InterfaceNameMeaning(dato: string)
    ensures IsInterfaceName(dato) <==>
      'S' in dato || (exists i :: OccursAt(dato, "Fa", i)) || (exists i :: OccursAt(dato, "Gig", i))
  {
    ContainsChar(dato, 'S');
    ContainsAt(dato, "Fa");
    ContainsAt(dato, "Gig");
  }

  /** A name holding none of the letters F, G and S is refused. */
  lemma WithoutCapitalsRefused(dato: string)
    requires 'F' !in dato && 'G' !in dato && 'S' !in dato
    ensures !IsInterfaceName(dato)
  {
    if Contains(dato, "Fa") {
      ContainsChars(dato, "Fa", 0);
    }
    if Contains(dato, "Gig") {
      ContainsChars(dato, "Gig", 0);
    }
    if Contains(dato, "S") {
      ContainsChars(dato, "S", 0);
    }
  }
}
