/** The few JavaScript string and array built-ins the site's scripts rely on:
    `String.prototype.split` with a one-character separator, `Array.prototype.join`,
    `String.prototype.indexOf`, and `String.prototype.replace` with a string pattern,
    which replaces only the FIRST occurrence. */
module JsStrings {

  datatype Option<+T> = None | Some(value: T)

  /** True if `pat` occurs in `s` starting at index `i`. */
  predicate OccursAt(s: string, pat: string, i: nat) {
    i + |pat| <= |s| && s[i..i + |pat|] == pat
  }

  /** `s.indexOf(pat, from)`: scans forward from `from` for an occurrence of `pat`. */
  function IndexOfFrom(s: string, pat: string, from: nat): Option<nat>
    requires from <= |s|
    decreases |s| - from
  {
    if OccursAt(s, pat, from) then Some(from)
    else if from == |s| then None
    else IndexOfFrom(s, pat, from + 1)
  }

  /** The index found is an occurrence at or after `from` with no earlier one; when
      none is found, there is no occurrence at or after `from`. */
  lemma {:induction false} IndexOfFromFindsFirst(s: string, pat: string, from: nat)
    requires from <= |s|
    ensures var r := IndexOfFrom(s, pat, from);
            && (r.Some? ==> from <= r.value && OccursAt(s, pat, r.value))
            && (r.Some? ==> forall j :: from <= j < r.value ==> !OccursAt(s, pat, j))
            && (r.None? ==> forall j :: from <= j <= |s| ==> !OccursAt(s, pat, j))
    decreases |s| - from
  {
    if !OccursAt(s, pat, from) && from < |s| {
      IndexOfFromFindsFirst(s, pat, from + 1);
    }
  }

  /** `s.indexOf(pat)`. */
  function IndexOf(s: string, pat: string): Option<nat> {
    IndexOfFrom(s, pat, 0)
  }

  /** `s.replace(pat, '')` for a string pattern: only the first occurrence goes. */
  function RemoveFirst(s: string, pat: string): (r: string)
    ensures r == s || |r| + |pat| == |s|
  {
    match IndexOf(s, pat)
    case None => s
    case Some(i) => if i + |pat| <= |s| then s[..i] + s[i + |pat|..] else s
  }

  /** Without an occurrence of `pat` the text is unchanged. */
  lemma {:induction false} RemoveFirstWithoutOccurrence(s: string, pat: string)
    requires forall j :: 0 <= j <= |s| ==> !OccursAt(s, pat, j)
    ensures RemoveFirst(s, pat) == s
  {
    IndexOfFromFindsFirst(s, pat, 0);
  }

  /** With its first occurrence at `i`, exactly that occurrence is cut out. */
  lemma {:induction false} RemoveFirstAt(s: string, pat: string, i: nat)
    requires i <= |s| && OccursAt(s, pat, i)
    requires forall j :: 0 <= j < i ==> !OccursAt(s, pat, j)
    ensures RemoveFirst(s, pat) == s[..i] + s[i + |pat|..]
  {
    IndexOfFromFindsFirst(s, pat, 0);
    assert IndexOf(s, pat) == Some(i);
  }

  /** Removing text adds no character. */
  lemma {:induction false} RemoveFirstAddsNothing(s: string, pat: string)
    ensures forall c :: c in RemoveFirst(s, pat) ==> c in s
  {
    match IndexOf(s, pat)
    case None =>
    case Some(i) =>
      if i + |pat| <= |s| {
        var r := s[..i] + s[i + |pat|..];
        forall c | c in r ensures c in s {
          if c in s[..i] {
            var k :| 0 <= k < i && s[..i][k] == c;
            assert s[k] == c;
          } else {
            var k :| 0 <= k < |s[i + |pat|..]| && s[i + |pat|..][k] == c;
            assert s[i + |pat| + k] == c;
          }
        }
      }
  }

  /** `s.split(sep)` for a one-character separator: the pieces between separators,
      always at least one (the empty string splits into `[""]`). */
  function Split(s: string, sep: char): (parts: seq<string>)
    ensures |parts| >= 1
    decreases |s|
  {
    if s == [] then [[]]
    else
      var init := Split(s[..|s| - 1], sep);
      var c := s[|s| - 1];
      if c == sep then init + [[]]
      else init[..|init| - 1] + [init[|init| - 1] + [c]]
  }

  /** Splitting `s + [c]`: a separator starts a new, empty piece; any other character
      extends the last piece. */
  lemma {:induction false} SplitSnoc(s: string, c: char, sep: char)
    ensures var p := Split(s, sep);
            Split(s + [c], sep) ==
              if c == sep then p + [[]] else p[..|p| - 1] + [p[|p| - 1] + [c]]
  {
    assert (s + [c])[..|s|] == s;
  }

  /** Joining `parts + [p]` puts a separator before `p` unless `parts` is empty. */
  lemma {:induction false} JoinSnoc(parts: seq<string>, p: string, sep: char)
    ensures Join(parts + [p], sep) == if parts == [] then p else Join(parts, sep) + [sep] + p
  {
    assert (parts + [p])[..|parts|] == parts;
  }

  /** No piece of a split contains the separator. */
  lemma {:induction false} SplitPiecesHaveNoSeparator(s: string, sep: char)
    ensures forall i :: 0 <= i < |Split(s, sep)| ==> sep !in Split(s, sep)[i]
    decreases |s|
  {
    if s != [] {
      var s', c := s[..|s| - 1], s[|s| - 1];
      assert s == s' + [c];
      var init := Split(s', sep);
      SplitPiecesHaveNoSeparator(s', sep);
      SplitSnoc(s', c, sep);
      if c != sep {
        var last := init[|init| - 1] + [c];
        assert sep !in last by {
          forall k | 0 <= k < |last| ensures last[k] != sep {
            if k < |last| - 1 { assert last[k] == init[|init| - 1][k]; }
          }
        }
        var parts := init[..|init| - 1] + [last];
        forall i | 0 <= i < |parts| ensures sep !in parts[i] {
          if i < |init| - 1 { assert parts[i] == init[i]; }
        }
      }
    }
  }

  /** The last element of a non-empty sequence (`Array.prototype.pop`'s result). */
  function Last<T>(xs: seq<T>): T
    requires |xs| >= 1
  {
    xs[|xs| - 1]
  }

  /** `parts.join(sep)`. */
  function Join(parts: seq<string>, sep: char): string {
    if |parts| == 0 then []
    else if |parts| == 1 then parts[0]
    else Join(parts[..|parts| - 1], sep) + [sep] + parts[|parts| - 1]
  }

  /** Joining the pieces of a split gives back the original string. */
  lemma {:induction false} JoinSplit(s: string, sep: char)
    ensures Join(Split(s, sep), sep) == s
    decreases |s|
  {
    if s != [] {
      var s', c := s[..|s| - 1], s[|s| - 1];
      assert s == s' + [c];
      JoinSplit(s', sep);
      JoinSplitSnoc(s', c, sep);
    }
  }

  /** Extending the last piece extends the join by the same text. */
  lemma {:induction false} JoinExtendLast(p: seq<string>, t: string, sep: char)
    requires |p| >= 1
    ensures Join(p[..|p| - 1] + [p[|p| - 1] + t], sep) == Join(p, sep) + t
  {
    var front, last := p[..|p| - 1], p[|p| - 1];
    assert p == front + [last];
    JoinSnoc(front, last, sep);
    JoinSnoc(front, last + t, sep);
    if front != [] {
      calc {
        Join(front + [last + t], sep);
        Join(front, sep) + [sep] + (last + t);
        (Join(front, sep) + [sep] + last) + t;
      }
    }
  }

  /** The step of `JoinSplit`: one more character keeps the round trip. */
  lemma {:induction false} JoinSplitSnoc(s: string, c: char, sep: char)
    requires Join(Split(s, sep), sep) == s
    ensures Join(Split(s + [c], sep), sep) == s + [c]
  {
    var p := Split(s, sep);
    SplitSnoc(s, c, sep);
    if c == sep {
      JoinSnoc(p, [], sep);
      assert s + [sep] + [] == s + [c];
    } else {
      JoinExtendLast(p, [c], sep);
    }
  }

  /** Appending separator-free text extends the last piece of a split. */
  lemma {:induction false} SplitAppendFree(s: string, t: string, sep: char)
    requires sep !in t
    ensures var p := Split(s, sep);
            Split(s + t, sep) == p[..|p| - 1] + [p[|p| - 1] + t]
    decreases |t|
  {
    if t == [] {
      var p := Split(s, sep);
      assert s + t == s;
      assert p[|p| - 1] + t == p[|p| - 1];
      assert p[..|p| - 1] + [p[|p| - 1]] == p;
    } else {
      var t', c := t[..|t| - 1], t[|t| - 1];
      assert t == t' + [c];
      assert sep !in t' && c != sep;
      SplitAppendFree(s, t', sep);
      SplitAppendFreeSnoc(s, t', c, sep);
    }
  }

  /** The step of `SplitAppendFree`: one more non-separator character. */
  lemma {:induction false} SplitAppendFreeSnoc(s: string, t: string, c: char, sep: char)
    requires c != sep
    requires var p := Split(s, sep);
             Split(s + t, sep) == p[..|p| - 1] + [p[|p| - 1] + t]
    ensures var p := Split(s, sep);
            Split(s + (t + [c]), sep) == p[..|p| - 1] + [p[|p| - 1] + (t + [c])]
  {
    var p := Split(s, sep);
    var front, last := p[..|p| - 1], p[|p| - 1];
    assert s + (t + [c]) == (s + t) + [c];
    SplitSnoc(s + t, c, sep);
    var init := front + [last + t];
    assert init[..|init| - 1] == front && init[|init| - 1] == last + t;
    assert (last + t) + [c] == last + (t + [c]);
  }

  /** Splitting a join of separator-free pieces gives back the pieces. */
  lemma {:induction false} SplitJoin(parts: seq<string>, sep: char)
    requires |parts| >= 1
    requires forall i :: 0 <= i < |parts| ==> sep !in parts[i]
    ensures Split(Join(parts, sep), sep) == parts
    decreases |parts|
  {
    if |parts| == 1 {
      SplitAppendFree([], parts[0], sep);
      assert [] + parts[0] == parts[0];
      assert parts == [parts[0]];
    } else {
      var init, last := parts[..|parts| - 1], parts[|parts| - 1];
      assert parts == init + [last];
      SplitJoin(init, sep);
      SplitJoinSnoc(init, last, sep);
    }
  }

  /** The step of `SplitJoin`: one more separator-free piece. */
  lemma {:induction false} SplitJoinSnoc(init: seq<string>, last: string, sep: char)
    requires init != [] && sep !in last
    requires Split(Join(init, sep), sep) == init
    ensures Split(Join(init + [last], sep), sep) == init + [last]
  {
    JoinSnoc(init, last, sep);
    var j := Join(init, sep);
    SplitSnoc(j, sep, sep);
    SplitAppendFree(j + [sep], last, sep);
    var q := init + [[]];
    assert q[..|q| - 1] == init;
    assert [] + last == last;
  }

  /** `seg` is the text after the last separator of `s`: a separator-free suffix of
      `s` that is either all of `s` or preceded by a separator. */
  predicate TrailingSegment(s: string, seg: string, sep: char) {
    && |seg| <= |s| && s[|s| - |seg|..] == seg && sep !in seg
    && (|seg| < |s| ==> s[|s| - |seg| - 1] == sep)
  }

  /** The last piece of a split is the text after the last separator. */
  lemma {:induction false} LastPieceIsSuffix(s: string, sep: char)
    ensures TrailingSegment(s, Last(Split(s, sep)), sep)
    decreases |s|
  {
    if s != [] {
      var s', c := s[..|s| - 1], s[|s| - 1];
      assert s == s' + [c];
      LastPieceIsSuffix(s', sep);
      LastPieceSnoc(s', c, sep);
    }
  }

  /** The step of `LastPieceIsSuffix`: one more character. */
  lemma {:induction false} LastPieceSnoc(s: string, c: char, sep: char)
    requires TrailingSegment(s, Last(Split(s, sep)), sep)
    ensures TrailingSegment(s + [c], Last(Split(s + [c], sep)), sep)
  {
    SplitSnoc(s, c, sep);
    var seg := Last(Split(s, sep));
    var t := s + [c];
    if c != sep {
      var seg' := seg + [c];
      assert Last(Split(t, sep)) == seg';
      var k := |s| - |seg|;
      assert |t| - |seg'| == k;
      assert t[k..] == s[k..] + [c];
      assert k > 0 ==> t[k - 1] == s[k - 1];
      assert sep !in seg' by {
        forall i | 0 <= i < |seg'| ensures seg'[i] != sep {
          if i < |seg| { assert seg'[i] == seg[i]; }
        }
      }
    } else {
      assert Last(Split(t, sep)) == [];
    }
  }

  /** The last piece of `dir + sep + file` is `file` when `file` holds no separator. */
  lemma {:induction false} LastPieceAfterSeparator(dir: string, file: string, sep: char)
    requires sep !in file
    ensures Last(Split(dir + [sep] + file, sep)) == file
  {
    var d := dir + [sep];
    assert d[..|d| - 1] == dir;
    SplitAppendFree(d, file, sep);
    assert [] + file == file;
  }
}
