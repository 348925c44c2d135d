/**
 * The Python string built-ins the validators rely on: str.split(sep) with
 * a one-character separator, str.strip() and the substring test `sub in s`.
 */
module Text {

  /** s.split(sep): the pieces between separators; always at least one piece. */
  function Split(s: string, sep: char): (ps: seq<string>)
    ensures |ps| >= 1
  {
    if s == [] then [[]]
    else
      var rest := Split(s[1..], sep);
      if s[0] == sep then [[]] + rest else [[s[0]] + rest[0]] + rest[1..]
  }

  /** sep.join(ps) */
  function Join(ps: seq<string>, sep: char): string
    requires |ps| >= 1
  {
    if |ps| == 1 then ps[0] else ps[0] + [sep] + Join(ps[1..], sep)
  }

  /** No piece produced by split contains the separator. */
  lemma {:induction false} SplitPiecesFree(s: string, sep: char)
    ensures forall k :: 0 <= k < |Split(s, sep)| ==> sep !in Split(s, sep)[k]
  {
    if s != [] {
      SplitPiecesFree(s[1..], sep);
    }
  }

  /** Joining the pieces gives back the string. */
  lemma {:induction false} JoinSplit(s: string, sep: char)
    ensures Join(Split(s, sep), sep) == s
  {
    if s != [] {
      var rest := Split(s[1..], sep);
      JoinSplit(s[1..], sep);
      if s[0] == sep {
        assert Split(s, sep)[1..] == rest;
      } else {
        var ps := Split(s, sep);
        if |rest| > 1 {
          assert ps[1..] == rest[1..];
          assert Join(rest, sep) == rest[0] + [sep] + Join(rest[1..], sep);
        }
        assert s == [s[0]] + s[1..];
      }
    }
  }

  /** Splitting a piece that holds no separator, followed by more text. */
  lemma {:induction false} SplitFreePrefix(p: string, t: string, sep: char)
    requires sep !in p
    ensures Split(p + t, sep) == [p + Split(t, sep)[0]] + Split(t, sep)[1..]
  {
    if p != [] {
      var rest := Split(p[1..] + t, sep);
      SplitFreePrefix(p[1..], t, sep);
      assert (p + t)[1..] == p[1..] + t;
      assert (p + t)[0] == p[0] && p[0] != sep;
      assert Split(p + t, sep) == [[p[0]] + rest[0]] + rest[1..];
      assert rest[0] == p[1..] + Split(t, sep)[0] && rest[1..] == Split(t, sep)[1..];
      assert [p[0]] + (p[1..] + Split(t, sep)[0]) == p + Split(t, sep)[0];
    } else {
      var ts := Split(t, sep);
      assert p + t == t && p + ts[0] == ts[0];
      assert ts == [ts[0]] + ts[1..];
    }
  }

  /** Splitting a join of separator-free pieces gives back the pieces. */
  lemma {:induction false} SplitJoin(ps: seq<string>, sep: char)
    requires |ps| >= 1 && forall k :: 0 <= k < |ps| ==> sep !in ps[k]
    ensures Split(Join(ps, sep), sep) == ps
  {
    if |ps| == 1 {
      SplitFreePrefix(ps[0], [], sep);
      assert ps[0] + [] == ps[0];
      assert Split([], sep) == [[]];
    } else {
      var tail := Join(ps[1..], sep);
      SplitJoin(ps[1..], sep);
      SplitFreePrefix(ps[0], [sep] + tail, sep);
      assert ps[0] + [sep] + tail == ps[0] + ([sep] + tail);
      assert ([sep] + tail)[1..] == tail && ([sep] + tail)[0] == sep;
      assert Split([sep] + tail, sep) == [[]] + ps[1..];
      assert ps[0] + [] == ps[0];
      assert ps == [ps[0]] + ps[1..];
    }
  }

  /** A character other than the separator appended to a string extends its last piece. */
  lemma {:induction false} SplitSnoc(s: string, c: char, sep: char)
    requires c != sep
    ensures var ps := Split(s, sep);
      Split(s + [c], sep) == ps[..|ps| - 1] + [ps[|ps| - 1] + [c]]
  {
    if s == [] {
      assert Split([], sep) == [[]];
      assert Split([c], sep) == [[c] + Split([], sep)[0]] + Split([], sep)[1..];
      assert s + [c] == [c] && [c] + [] == [c] && [] + [c] == [c];
    } else {
      var tail := Split(s[1..], sep);
      SplitSnoc(s[1..], c, sep);
      assert (s + [c])[1..] == s[1..] + [c] && (s + [c])[0] == s[0];
      var rest := Split(s[1..] + [c], sep);
      assert rest == tail[..|tail| - 1] + [tail[|tail| - 1] + [c]];
      if s[0] == sep {
        SnocCons(tail, c);
      } else {
        SnocExtend(s[0], tail, rest, c);
      }
    }
  }

  lemma SnocCons(tail: seq<string>, c: char)
    requires |tail| >= 1
    ensures var ps := [[]] + tail;
      [[]] + (tail[..|tail| - 1] + [tail[|tail| - 1] + [c]]) == ps[..|ps| - 1] + [ps[|ps| - 1] + [c]]
  {
    var ps := [[]] + tail;
    assert ps[..|ps| - 1] == [[]] + tail[..|tail| - 1];
  }

  lemma SnocExtend(h: char, tail: seq<string>, rest: seq<string>, c: char)
    requires |tail| >= 1 && rest == tail[..|tail| - 1] + [tail[|tail| - 1] + [c]]
    ensures var ps := [[h] + tail[0]] + tail[1..];
      [[h] + rest[0]] + rest[1..] == ps[..|ps| - 1] + [ps[|ps| - 1] + [c]]
  {
    var ps := [[h] + tail[0]] + tail[1..];
    if |tail| == 1 {
      assert rest == [tail[0] + [c]];
      assert [h] + (tail[0] + [c]) == ([h] + tail[0]) + [c];
    } else {
      assert rest[0] == tail[0];
      assert rest[1..] == tail[1..|tail| - 1] + [tail[|tail| - 1] + [c]];
      assert ps[..|ps| - 1] == [[h] + tail[0]] + tail[1..|tail| - 1];
    }
  }

  /** The whitespace str.strip() removes, restricted to ASCII. */
  predicate IsSpace(c: char) {
    c == ' ' || c == '\t' || c == '\n' || c == '\r' || c as int == 11 || c as int == 12
  }

  function StripStart(s: string): (r: string)
    ensures |r| <= |s| && (r != [] ==> !IsSpace(r[0]))
  {
    if s != [] && IsSpace(s[0]) then StripStart(s[1..]) else s
  }

  function StripEnd(s: string): (r: string)
    ensures |r| <= |s| && (r != [] ==> !IsSpace(r[|r| - 1]))
  {
    if s != [] && IsSpace(s[|s| - 1]) then StripEnd(s[..|s| - 1]) else s
  }

  /** s.strip() */
  function Strip(s: string): string {
    StripEnd(StripStart(s))
  }

  /** A string that neither starts nor ends with whitespace is left alone. */
  lemma StripUntrimmed(s: string)
    requires s != [] && !IsSpace(s[0]) && !IsSpace(s[|s| - 1])
    ensures Strip(s) == s
  {
  }

  /** Strip removes a trailing whitespace character. */
  lemma StripTrailing(s: string, c: char)
    requires s != [] && !IsSpace(s[0]) && !IsSpace(s[|s| - 1]) && IsSpace(c)
    ensures Strip(s + [c]) == s
  {
    var t := s + [c];
    assert t[0] == s[0] && t[|t| - 1] == c;
    assert StripStart(t) == t;
    assert t[..|t| - 1] == s;
    assert StripEnd(s) == s;
  }

  /** `sub in s`, scanning the start positions from left to right. */
  predicate Contains(s: string, sub: string)
    decreases |s|
  {
    (|sub| <= |s| && s[..|sub|] == sub) || (s != [] && Contains(s[1..], sub))
  }

  /** sub occurs in s starting at position i. */
  predicate OccursAt(s: string, sub: string, i: int) {
    0 <= i && i + |sub| <= |s| && s[i..i + |sub|] == sub
  }

  /** `sub in s` holds exactly when sub occurs at some position of s. */
  lemma {:induction false} ContainsAt(s: string, sub: string)
    ensures Contains(s, sub) <==> exists i :: OccursAt(s, sub, i)
  {
    if s != [] {
      ContainsAt(s[1..], sub);
      if exists i :: OccursAt(s, sub, i) {
        var i :| OccursAt(s, sub, i);
        if i > 0 {
          assert s[1..][i - 1..i - 1 + |sub|] == sub;
          assert OccursAt(s[1..], sub, i - 1);
        }
      }
      if Contains(s[1..], sub) {
        var i :| OccursAt(s[1..], sub, i);
        assert s[i + 1..i + 1 + |sub|] == sub;
        assert OccursAt(s, sub, i + 1);
      }
      if |sub| <= |s| && s[..|sub|] == sub {
        assert OccursAt(s, sub, 0);
      }
    } else {
      if exists i :: OccursAt(s, sub, i) {
        assert |sub| == 0 && s[..0] == sub;
      }
      if Contains(s, sub) {
        assert OccursAt(s, sub, 0);
      }
    }
  }

  /** Every character of a substring occurs in the string. */
  lemma ContainsChars(s: string, sub: string, j: nat)
    requires j < |sub| && Contains(s, sub)
    ensures sub[j] in s
  {
    ContainsAt(s, sub);
    var i :| OccursAt(s, sub, i);
    assert s[i + j] == sub[j];
  }
}
