/**
 * The tag field of a catalog row (app_final.py:19): the raw field, possibly
 * missing, is split at every comma, each piece is stripped of surrounding
 * whitespace, and pieces that end up empty are dropped.
 */
module Tags {
  import opened Seqs

  datatype Option<T> = None | Some(value: T)

  /** The characters Python's `str.isspace` accepts, which `str.strip()`
      removes from both ends of a string. */
  predicate IsSpace(c: char)
  {
    || c == ' '
    || ('\t' <= c <= '\r')
    || ('\U{1C}' <= c <= '\U{1F}')
    || c == '\U{85}' || c == '\U{A0}' || c == '\U{1680}'
    || ('\U{2000}' <= c <= '\U{200A}')
    || c == '\U{2028}' || c == '\U{2029}' || c == '\U{202F}' || c == '\U{205F}'
    || c == '\U{3000}'
  }

  predicate AllSpace(s: string)
  {
    forall k :: 0 <= k < |s| ==> IsSpace(s[k])
  }

  /** Neither end of `s` is whitespace. */
  predicate Trimmed(s: string)
  {
    s == [] || (!IsSpace(s[0]) && !IsSpace(s[|s| - 1]))
  }

  /** Python's `s.split(sep)`: the pieces between separators, left to right;
      a string holding k separators has k + 1 pieces. */
  function Split(s: string, sep: char): (pieces: seq<string>)
    ensures |pieces| >= 1
  {
    if s == [] then [""]
    else
      var rest := Split(s[1..], sep);
      if s[0] == sep then [""] + rest
      else [[s[0]] + rest[0]] + rest[1..]
  }

  /** Python's `sep.join(pieces)`. */
  function Join(pieces: seq<string>, sep: char): string
  {
    if pieces == [] then ""
    else if |pieces| == 1 then pieces[0]
    else pieces[0] + [sep] + Join(pieces[1..], sep)
  }

  /** Every piece of a split is free of the separator, and holds only
      characters of the input. */
  lemma {:induction false} SplitPieces(s: string, sep: char)
    ensures forall p <- Split(s, sep) :: sep !in p
    ensures forall p <- Split(s, sep), c <- p :: c in s
  {
    if s != [] {
      SplitPieces(s[1..], sep);
      var rest := Split(s[1..], sep);
      if s[0] != sep {
        assert Split(s, sep) == [[s[0]] + rest[0]] + rest[1..];
        forall p <- Split(s, sep)
          ensures sep !in p && forall c <- p :: c in s
        {
          if p != [s[0]] + rest[0] {
            assert p in rest[1..];
          }
        }
      }
    }
  }

  lemma JoinCons(c: char, t: string, tail: seq<string>, sep: char)
    ensures Join([[c] + t] + tail, sep) == [c] + Join([t] + tail, sep)
  {
    if tail != [] {
      assert ([[c] + t] + tail)[1..] == tail == ([t] + tail)[1..];
    }
  }

  /** Joining the pieces of a split with the same separator gives the input
      back. */
  lemma {:induction false} JoinSplit(s: string, sep: char)
    ensures Join(Split(s, sep), sep) == s
  {
    if s != [] {
      JoinSplit(s[1..], sep);
      var rest := Split(s[1..], sep);
      if s[0] == sep {
        assert ([""] + rest)[1..] == rest;
      } else {
        assert rest == [rest[0]] + rest[1..];
        JoinCons(s[0], rest[0], rest[1..], sep);
      }
    }
  }

  /** Splitting a join of separator-free pieces gives the pieces back, so
      Split is the unique way to cut a string into separator-free pieces. */
  lemma {:induction false} SplitJoin(pieces: seq<string>, sep: char)
    requires pieces != []
    requires forall p <- pieces :: sep !in p
    ensures Split(Join(pieces, sep), sep) == pieces
    decreases |Join(pieces, sep)|
  {
    var head, tail := pieces[0], pieces[1..];
    assert pieces == [head] + tail;
    if head == [] {
      if tail != [] {
        var s := Join(pieces, sep);
        assert s == [sep] + Join(tail, sep);
        SplitJoin(tail, sep);
        assert s[1..] == Join(tail, sep);
      }
    } else {
      var c, t := head[0], head[1..];
      assert head == [c] + t;
      assert head in pieces;
      assert c != sep && sep !in t;
      JoinCons(c, t, tail, sep);
      var shorter := [t] + tail;
      forall p <- shorter
        ensures sep !in p
      {
        if p != t { assert p in pieces; }
      }
      SplitJoin(shorter, sep);
      var s := Join(pieces, sep);
      assert s == [c] + Join(shorter, sep);
      assert s[1..] == Join(shorter, sep);
      assert Split(s, sep) == [[c] + shorter[0]] + shorter[1..];
    }
  }

  /** Removes leading whitespace: what remains is a suffix that is empty or
      starts with a non-space, and everything removed is whitespace. */
  function StripLeft(s: string): (r: string)
    ensures |r| <= |s| && r == s[|s| - |r|..]
    ensures AllSpace(s[..|s| - |r|])
    ensures r == [] || !IsSpace(r[0])
  {
    if s != [] && IsSpace(s[0]) then
      var r := StripLeft(s[1..]);
      StripLeftStep(s, r);
      r
    else s
  }

  lemma StripLeftStep(s: string, r: string)
    requires s != [] && IsSpace(s[0])
    requires |r| <= |s| - 1 && r == s[1..][|s| - 1 - |r|..]
    requires AllSpace(s[1..][..|s| - 1 - |r|])
    ensures r == s[|s| - |r|..] && AllSpace(s[..|s| - |r|])
  {
    var n := |s| - |r|;
    assert s[1..][|s| - 1 - |r|..] == s[n..];
    forall k | 0 <= k < n
      ensures IsSpace(s[..n][k])
    {
      if k > 0 {
        assert s[..n][k] == s[1..][..n - 1][k - 1];
      }
    }
  }

  /** Removes trailing whitespace, symmetrically to StripLeft. */
  function StripRight(s: string): (r: string)
    ensures |r| <= |s| && r == s[..|r|]
    ensures AllSpace(s[|r|..])
    ensures r == [] || !IsSpace(r[|r| - 1])
  {
    if s != [] && IsSpace(s[|s| - 1]) then
      var r := StripRight(s[..|s| - 1]);
      StripRightStep(s, r);
      r
    else s
  }

  lemma StripRightStep(s: string, r: string)
    requires s != [] && IsSpace(s[|s| - 1])
    requires |r| <= |s| - 1 && r == s[..|s| - 1][..|r|]
    requires AllSpace(s[..|s| - 1][|r|..])
    ensures r == s[..|r|] && AllSpace(s[|r|..])
  {
    var n := |r|;
    assert s[..|s| - 1][..n] == s[..n];
    forall k | 0 <= k < |s| - n
      ensures IsSpace(s[n..][k])
    {
      if k < |s| - n - 1 {
        assert s[n..][k] == s[..|s| - 1][n..][k];
      }
    }
  }

  /** Python's `s.strip()`. */
  function Strip(s: string): (r: string)
    ensures Trimmed(r)
  {
    StripRight(StripLeft(s))
  }

  /** Strip cuts only whitespace off the ends: its result is the infix
      s[i..j] of the input, and everything outside it is whitespace. */
  lemma StripIsInfix(s: string) returns (i: nat, j: nat)
    ensures i <= j <= |s| && Strip(s) == s[i..j]
    ensures AllSpace(s[..i]) && AllSpace(s[j..])
  {
    var l := StripLeft(s);
    var r := StripRight(l);
    i, j := InfixBounds(s, l, r);
  }

  lemma InfixBounds(s: string, l: string, r: string) returns (i: nat, j: nat)
    requires |l| <= |s| && l == s[|s| - |l|..] && AllSpace(s[..|s| - |l|])
    requires |r| <= |l| && r == l[..|r|] && AllSpace(l[|r|..])
    ensures i <= j <= |s| && r == s[i..j]
    ensures AllSpace(s[..i]) && AllSpace(s[j..])
  {
    i, j := |s| - |l|, |s| - |l| + |r|;
    SliceOfSuffix(s, i, |r|);
  }

  lemma SliceOfSuffix(s: string, i: nat, n: nat)
    requires i + n <= |s|
    ensures s[i..][..n] == s[i..i + n] && s[i..][n..] == s[i + n..]
  {
  }

  lemma {:induction false} StripLeftPadded(lead: string, x: string)
    requires AllSpace(lead) && (x == [] || !IsSpace(x[0]))
    ensures StripLeft(lead + x) == x
  {
    if lead != [] {
      assert (lead + x)[1..] == lead[1..] + x;
      StripLeftPadded(lead[1..], x);
    } else {
      assert lead + x == x;
    }
  }

  lemma {:induction false} StripRightPadded(x: string, trail: string)
    requires AllSpace(trail) && (x == [] || !IsSpace(x[|x| - 1]))
    ensures StripRight(x + trail) == x
  {
    if trail != [] {
      var n := |trail| - 1;
      assert (x + trail)[..|x + trail| - 1] == x + trail[..n];
      StripRightPadded(x, trail[..n]);
    } else {
      assert x + trail == x;
    }
  }

  /** Strip undoes whitespace padding around a trimmed string: together with
      StripIsInfix, this pins Strip down completely. */
  lemma StripPadded(lead: string, t: string, trail: string)
    requires AllSpace(lead) && AllSpace(trail) && Trimmed(t)
    ensures Strip(lead + t + trail) == t
  {
    if t == [] {
      assert lead + t + trail == (lead + trail) + [];
      assert AllSpace(lead + trail);
      StripLeftPadded(lead + trail, []);
    } else {
      assert lead + t + trail == lead + (t + trail);
      StripLeftPadded(lead, t + trail);
      StripRightPadded(t, trail);
    }
  }

  /** The list comprehension of line 19: stripped pieces, empty ones dropped. */
  function NonBlankStripped(pieces: seq<string>): (tags: seq<string>)
    ensures |tags| <= |pieces|
  {
    if pieces == [] then []
    else
      var t := Strip(pieces[0]);
      (if t != "" then [t] else []) + NonBlankStripped(pieces[1..])
  }

  /** The tag list of a row: a missing field counts as the empty string. */
  function ParseTags(field: Option<string>): (tags: seq<string>)
    ensures forall t <- tags :: t != "" && Trimmed(t) && ',' !in t
  {
    var s := if field.Some? then field.value else "";
    SplitPieces(s, ',');
    NonBlankStrippedTags(Split(s, ','));
    NonBlankStripped(Split(s, ','))
  }

  lemma StripKeepsOut(p: string, c: char)
    requires c !in p
    ensures c !in Strip(p)
  {
    var i, j := StripIsInfix(p);
  }

  lemma {:induction false} NonBlankStrippedTags(pieces: seq<string>)
    requires forall p <- pieces :: ',' !in p
    ensures forall t <- NonBlankStripped(pieces) :: t != "" && Trimmed(t) && ',' !in t
  {
    if pieces != [] {
      var t, rest := Strip(pieces[0]), NonBlankStripped(pieces[1..]);
      assert pieces[0] in pieces;
      assert forall p <- pieces[1..] :: p in pieces;
      NonBlankStrippedTags(pieces[1..]);
      StripKeepsOut(pieces[0], ',');
      assert NonBlankStripped(pieces) == (if t != "" then [t] else []) + rest;
    }
  }

  /** The tags are exactly the comma-separated pieces, stripped, in their
      original order, with blank pieces dropped. */
  lemma ParseTagsOfJoin(pieces: seq<string>)
    requires pieces != []
    requires forall p <- pieces :: ',' !in p
    ensures ParseTags(Some(Join(pieces, ','))) == NonBlankStripped(pieces)
  {
    SplitJoin(pieces, ',');
  }

  /** A list of well-formed tags survives being written as a comma-separated
      field and parsed back. */
  lemma {:induction false} ParseTagsRoundTrip(tags: seq<string>)
    requires forall t <- tags :: t != "" && Trimmed(t) && ',' !in t
    ensures ParseTags(Some(Join(tags, ','))) == tags
  {
    if tags != [] {
      ParseTagsOfJoin(tags);
      assert forall k :: 0 <= k < |tags| ==> tags[k] in tags;
      NonBlankStrippedTrimmed(tags);
    }
  }

  lemma {:induction false} NonBlankStrippedTrimmed(tags: seq<string>)
    requires forall k :: 0 <= k < |tags| ==> tags[k] != "" && Trimmed(tags[k])
    ensures NonBlankStripped(tags) == tags
  {
    if tags != [] {
      var t := tags[0];
      assert forall k :: 0 <= k < |tags[1..]| ==> tags[1..][k] == tags[k + 1];
      NonBlankStrippedTrimmed(tags[1..]);
      StripTrimmed(t);
      HeadTail(tags);
    }
  }

  /** Strip leaves a trimmed string alone. */
  lemma StripTrimmed(t: string)
    requires Trimmed(t)
    ensures Strip(t) == t
  {
    StripPadded("", t, "");
    assert "" + t + "" == t;
  }

  /** A missing field, an empty field, or one holding only commas and
      whitespace gives no tags. */
  lemma BlankFieldHasNoTags(field: Option<string>)
    requires field.Some? ==> forall c <- field.value :: c == ',' || IsSpace(c)
    ensures ParseTags(field) == []
  {
    var s := if field.Some? then field.value else "";
    SplitPieces(s, ',');
    AllBlankPieces(Split(s, ','));
  }

  lemma {:induction false} AllBlankPieces(pieces: seq<string>)
    requires forall p <- pieces, c <- p :: c == ',' || IsSpace(c)
    requires forall p <- pieces :: ',' !in p
    ensures NonBlankStripped(pieces) == []
  {
    if pieces != [] {
      var p := pieces[0];
      assert p in pieces;
      assert AllSpace(p) by {
        forall k | 0 <= k < |p|
          ensures IsSpace(p[k])
        {
          assert p[k] in p;
        }
      }
      StripLeftPadded(p, []);
      assert p + [] == p;
      AllBlankPieces(pieces[1..]);
    }
  }
}
