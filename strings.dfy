/**
 * The string operations the corpus tool relies on: Python's `str.split` with a
 * one-character separator, `str.join`, substring search and the last path segment
 * of a URL.
 */
module Strings {

  /** `sep.join(parts)`. */
  function Join(parts: seq<string>, sep: string): string
  {
    if |parts| == 0 then ""
    else if |parts| == 1 then parts[0]
    else parts[0] + sep + Join(parts[1..], sep)
  }

  /**
   * `s.split(sep)`: the pieces of `s` between occurrences of `sep`, empty pieces
   * included, so there is always at least one piece and joining them back with
   * `sep` gives `s`.
   */
  function Split(s: string, sep: char): (parts: seq<string>)
    ensures |parts| >= 1
    ensures forall i :: 0 <= i < |parts| ==> sep !in parts[i]
    ensures Join(parts, [sep]) == s
    decreases |s|
  {
    if s == [] then [""]
    else
      var rest := Split(s[1..], sep);
      if s[0] == sep then
        assert [""] + rest == [""] + rest[..1] + rest[1..];
        [""] + rest
      else
        var parts := [[s[0]] + rest[0]] + rest[1..];
        assert parts[1..] == rest[1..];
        assert |rest| >= 2 ==> Join(rest, [sep]) == rest[0] + [sep] + Join(rest[1..], [sep]);
        parts
  }

  /** Splitting on `sep` undoes joining with `sep`, as long as no piece contains `sep`. */
  lemma {:induction false} SplitJoin(parts: seq<string>, sep: char)
    requires |parts| >= 1
    requires forall i :: 0 <= i < |parts| ==> sep !in parts[i]
    ensures Split(Join(parts, [sep]), sep) == parts
    decreases |parts|
  {
    if |parts| == 1 {
      SplitPiece(parts[0], "", sep);
      assert parts[0] + "" == parts[0];
    } else {
      var tail := Join(parts[1..], [sep]);
      SplitJoin(parts[1..], sep);
      assert Split([sep] + tail, sep) == [""] + parts[1..] by {
        assert ([sep] + tail)[1..] == tail;
      }
      assert parts[0] + [sep] + tail == parts[0] + ([sep] + tail);
      SplitPiece(parts[0], [sep] + tail, sep);
      var st := Split([sep] + tail, sep);
      assert st[0] == "" && st[1..] == parts[1..];
      assert parts[0] + st[0] == parts[0];
      assert parts == [parts[0] + st[0]] + st[1..];
    }
  }

  /** A separator-free prefix becomes the front of the first piece. */
  lemma {:induction false} SplitPiece(p: string, t: string, sep: char)
    requires sep !in p
    ensures Split(p + t, sep) == [p + Split(t, sep)[0]] + Split(t, sep)[1..]
    decreases |p|
  {
    if p != [] {
      SplitPiece(p[1..], t, sep);
      assert (p + t)[1..] == p[1..] + t;
      var st := Split(t, sep);
      var rest := Split(p[1..] + t, sep);
      assert rest[0] == p[1..] + st[0] && rest[1..] == st[1..];
      assert [p[0]] + (p[1..] + st[0]) == p + st[0];
      assert Split(p + t, sep) == [[p[0]] + rest[0]] + rest[1..];
      assert [p[0]] + rest[0] == p + st[0];
    } else {
      var st := Split(t, sep);
      assert p + t == t && p + st[0] == st[0];
      assert [st[0]] + st[1..] == st;
    }
  }

  /** Joining with a separator puts the separator right before the last piece. */
  lemma {:induction false} JoinLast(parts: seq<string>, sep: string)
    requires |parts| >= 2
    ensures Join(parts, sep) == Join(parts[..|parts| - 1], sep) + sep + parts[|parts| - 1]
    decreases |parts|
  {
    if |parts| > 2 {
      JoinLast(parts[1..], sep);
      assert parts[1..][..|parts| - 2] == parts[..|parts| - 1][1..];
    }
  }

  /** `url.split('/')[-1]`: the text after the last slash of `url`, or all of `url` when it has no slash. */
  function LastSegment(url: string): string
  {
    var parts := Split(url, '/');
    parts[|parts| - 1]
  }

  /**
   * The last segment holds no slash, ends `url`, and is preceded in `url` by a
   * slash unless it is the whole of `url`.
   */
  lemma LastSegmentIsSuffix(url: string)
    ensures '/' !in LastSegment(url)
    ensures |LastSegment(url)| <= |url| && url[|url| - |LastSegment(url)|..] == LastSegment(url)
    ensures |LastSegment(url)| < |url| ==> url[|url| - |LastSegment(url)| - 1] == '/'
  {
    var parts := Split(url, '/');
    var name := parts[|parts| - 1];
    if |parts| > 1 {
      JoinLast(parts, "/");
      var front := Join(parts[..|parts| - 1], "/");
      assert url == front + "/" + name;
      assert url[|url| - |name|..] == name;
    }
  }

  /** The last segment of `front/name` is `name` whenever `name` holds no slash. */
  lemma LastSegmentAfterSlash(front: string, name: string)
    requires '/' !in name
    ensures LastSegment(front + "/" + name) == name
  {
    var url := front + "/" + name;
    var r := LastSegment(url);
    LastSegmentIsSuffix(url);
    assert url[|url| - |name|..] == name;
    assert url[|url| - |name| - 1] == '/';
    assert r == url[|url| - |name|..];
  }

  /** A string never contains a longer one. */
  lemma {:induction false} ContainsShorter(s: string, sub: string)
    requires |s| < |sub|
    ensures !Contains(s, sub)
    decreases |s|
  {
    if |s| > 0 {
      ContainsShorter(s[1..], sub);
    }
  }

  /** Between strings of equal length, containment is equality. */
  lemma ContainsSameLength(s: string, sub: string)
    requires |s| == |sub|
    ensures Contains(s, sub) <==> s == sub
  {
    if |s| > 0 {
      ContainsShorter(s[1..], sub);
    }
    assert s[..|sub|] == s;
  }

  predicate IsPrefix(p: string, s: string)
  {
    |p| <= |s| && s[..|p|] == p
  }

  /** `sub` occurs in `s` as a contiguous substring; the empty string occurs in every string. */
  predicate Contains(s: string, sub: string)
    decreases |s|
  {
    IsPrefix(sub, s) || (|s| > 0 && Contains(s[1..], sub))
  }

  ghost predicate OccursAt(s: string, sub: string, i: int)
  {
    0 <= i && i + |sub| <= |s| && s[i..i + |sub|] == sub
  }

  /** The recursive substring test agrees with "there is a position where `sub` starts". */
  lemma {:induction false} ContainsIff(s: string, sub: string)
    ensures Contains(s, sub) <==> exists i :: OccursAt(s, sub, i)
    decreases |s|
  {
    if IsPrefix(sub, s) {
      assert s[0..|sub|] == s[..|sub|];
      assert OccursAt(s, sub, 0);
    }
    if |s| > 0 {
      ContainsIff(s[1..], sub);
      if Contains(s[1..], sub) {
        var i :| OccursAt(s[1..], sub, i);
        assert s[1..][i..i + |sub|] == s[i + 1..i + 1 + |sub|];
        assert OccursAt(s, sub, i + 1);
      }
      if i :| OccursAt(s, sub, i) {
        if i > 0 {
          assert s[1..][i - 1..i - 1 + |sub|] == s[i..i + |sub|];
          assert OccursAt(s[1..], sub, i - 1);
        } else {
          assert IsPrefix(sub, s);
        }
      }
    } else {
      if i :| OccursAt(s, sub, i) {
        assert sub == [];
        assert IsPrefix(sub, s);
      }
    }
  }

  /** What occurs in `t` still occurs once something is put in front of it. */
  lemma {:induction false} ContainsAfter(p: string, t: string, sub: string)
    requires Contains(t, sub)
    ensures Contains(p + t, sub)
    decreases |p|
  {
    if p != [] {
      ContainsAfter(p[1..], t, sub);
      assert (p + t)[1..] == p[1..] + t;
      assert Contains((p + t)[1..], sub);
    } else {
      assert p + t == t;
    }
  }

  /** Every piece occurs in the joined string. */
  lemma {:induction false} JoinContainsEach(parts: seq<string>, sep: string, k: nat)
    requires k < |parts|
    ensures Contains(Join(parts, sep), parts[k])
    decreases |parts|
  {
    var joined := Join(parts, sep);
    if k == 0 {
      assert joined[..|parts[0]|] == parts[0];
      assert IsPrefix(parts[0], joined);
    } else {
      JoinContainsEach(parts[1..], sep, k - 1);
      ContainsAfter(parts[0] + sep, Join(parts[1..], sep), parts[k]);
    }
  }
}
