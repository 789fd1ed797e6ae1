/**
 * JavaScript's `String.prototype.split` with a one-character separator, as
 * the allow-list checker uses it (`data.split('\n')`, app.js:128), and its
 * inverse `Join`. Unlike a "lines" reader, `split` keeps empty pieces: the
 * empty string splits into one empty piece, and a trailing separator yields
 * a final empty piece.
 */
module Lines {

  /** Number of occurrences of `c` in `s`. */
  function Count(s: string, c: char): nat
  {
    if s == [] then 0 else (if s[0] == c then 1 else 0) + Count(s[1..], c)
  }

  /** `s.split(sep)`: the maximal separator-free pieces of `s`, in order. */
  function Split(s: string, sep: char): (pieces: seq<string>)
    ensures |pieces| == Count(s, sep) + 1
  {
    if s == [] then [[]]
    else
      var rest := Split(s[1..], sep);
      if s[0] == sep then [[]] + rest
      else [[s[0]] + rest[0]] + rest[1..]
  }

  /** No piece of a split contains the separator. */
  lemma {:induction false} PiecesAvoidSeparator(s: string, sep: char, k: int)
    requires 0 <= k < |Split(s, sep)|
    ensures sep !in Split(s, sep)[k]
  {
    if s != [] {
      var rest := Split(s[1..], sep);
      if s[0] == sep {
        if k > 0 {
          PiecesAvoidSeparator(s[1..], sep, k - 1);
        }
      } else if k == 0 {
        PiecesAvoidSeparator(s[1..], sep, 0);
      } else {
        PiecesAvoidSeparator(s[1..], sep, k);
      }
    }
  }

  /** `pieces.join(sep)`: the pieces with one separator between neighbours. */
  function Join(pieces: seq<string>, sep: char): string
    requires |pieces| >= 1
  {
    if |pieces| == 1 then pieces[0] else pieces[0] + [sep] + Join(pieces[1..], sep)
  }

  /** Joining the pieces of a split gives back the original text. */
  lemma {:induction false} SplitThenJoin(s: string, sep: char)
    ensures Join(Split(s, sep), sep) == s
  {
    if s != [] {
      var rest := Split(s[1..], sep);
      SplitThenJoin(s[1..], sep);
      if s[0] == sep {
        assert ([[]] + rest)[1..] == rest;
      } else if |rest| > 1 {
        assert rest == [rest[0]] + rest[1..];
        assert ([[s[0]] + rest[0]] + rest[1..])[1..] == rest[1..];
        assert [s[0]] + rest[0] + [sep] + Join(rest[1..], sep) == [s[0]] + Join(rest, sep);
        assert s == [s[0]] + s[1..];
      } else {
        assert s == [s[0]] + s[1..];
      }
    }
  }

  /** Text without a separator is a single piece. */
  lemma {:induction false} SplitWithoutSeparator(s: string, sep: char)
    requires sep !in s
    ensures Split(s, sep) == [s]
  {
    if s != [] {
      assert sep !in s[1..];
      SplitWithoutSeparator(s[1..], sep);
      assert s == [s[0]] + s[1..];
    }
  }

  /** One step of `Split` at a separator: it ends an (empty) first piece. */
  lemma SplitConsSeparator(u: string, sep: char)
    ensures Split([sep] + u, sep) == [[]] + Split(u, sep)
  {
    assert ([sep] + u)[0] == sep && ([sep] + u)[1..] == u;
  }

  /** One step of `Split` at any other character: it extends the first piece. */
  lemma SplitConsOther(c: char, u: string, sep: char)
    requires c != sep
    ensures Split([c] + u, sep) == [[c] + Split(u, sep)[0]] + Split(u, sep)[1..]
  {
    assert ([c] + u)[0] == c && ([c] + u)[1..] == u;
  }

  /** Splitting at a separator concatenates the pieces of both sides. */
  lemma {:induction false} SplitConcat(a: string, b: string, sep: char)
    ensures Split(a + [sep] + b, sep) == Split(a, sep) + Split(b, sep)
  {
    if a == [] {
      assert a + [sep] + b == [sep] + b;
      SplitConsSeparator(b, sep);
    } else {
      SplitConcat(a[1..], b, sep);
      assert a == [a[0]] + a[1..];
      assert a + [sep] + b == [a[0]] + (a[1..] + [sep] + b);
      SplitConcatStep(a[0], a[1..] + [sep] + b, a[1..], Split(b, sep), sep);
    }
  }

  /** A character put in front of two texts whose pieces agree up to a common tail keeps them agreeing. */
  lemma SplitConcatStep(c: char, x: string, rest: string, q: seq<string>, sep: char)
    requires Split(x, sep) == Split(rest, sep) + q
    ensures Split([c] + x, sep) == Split([c] + rest, sep) + q
  {
    var r := Split(rest, sep);
    if c == sep {
      SplitConsSeparator(x, sep);
      SplitConsSeparator(rest, sep);
      AppendAssociates([[]], r, q);
    } else {
      SplitConsOther(c, x, sep);
      SplitConsOther(c, rest, sep);
      ConsFirst([c], r, q);
    }
  }

  /** Re-association of the head piece, spelt out for the solver. */
  lemma ConsFirst(x: string, r: seq<string>, q: seq<string>)
    requires |r| >= 1
    ensures [x + (r + q)[0]] + (r + q)[1..] == ([x + r[0]] + r[1..]) + q
  {
    assert (r + q)[0] == r[0];
    assert (r + q)[1..] == r[1..] + q;
  }

  /** Concatenation is associative (stated generically, which the solver handles cheaply). */
  lemma AppendAssociates<T>(x: seq<T>, y: seq<T>, z: seq<T>)
    ensures x + (y + z) == (x + y) + z
  {
  }

  /** Joining separator-free pieces and splitting again gives back the pieces. */
  lemma {:induction false} JoinThenSplit(pieces: seq<string>, sep: char)
    requires |pieces| >= 1
    requires forall i :: 0 <= i < |pieces| ==> sep !in pieces[i]
    ensures Split(Join(pieces, sep), sep) == pieces
  {
    SplitWithoutSeparator(pieces[0], sep);
    if |pieces| > 1 {
      JoinThenSplit(pieces[1..], sep);
      SplitConcat(pieces[0], Join(pieces[1..], sep), sep);
      assert pieces == [pieces[0]] + pieces[1..];
    }
  }

  /** Joining a concatenation puts one separator between the two joins. */
  lemma {:induction false} JoinAppend(p: seq<string>, q: seq<string>, sep: char)
    requires |p| >= 1 && |q| >= 1
    ensures Join(p + q, sep) == Join(p, sep) + [sep] + Join(q, sep)
  {
    if |p| > 1 {
      JoinAppend(p[1..], q, sep);
      assert (p + q)[1..] == p[1..] + q;
    } else {
      assert (p + q)[1..] == q;
    }
  }

  /**
   * `s` stands as a whole line at index `i` of `t`: it starts at the
   * beginning of `t` or right after a separator, and ends at the end of `t`
   * or right before a separator.
   */
  ghost predicate LineAt(t: string, s: string, i: int, sep: char)
  {
    && 0 <= i && i + |s| <= |t|
    && t[i..i + |s|] == s
    && (i == 0 || t[i - 1] == sep)
    && (i + |s| == |t| || t[i + |s|] == sep)
  }

  /** `s` is one whole, separator-free line of `t`, wherever it stands. */
  ghost predicate OccursAsLine(t: string, s: string, sep: char)
  {
    sep !in s && exists i :: LineAt(t, s, i, sep)
  }

  /**
   * The pieces of a split are exactly the whole lines of the text: a string
   * is one of the pieces if and only if it occurs as a separator-delimited
   * line somewhere in the text.
   */
  lemma SplitMembership(t: string, s: string, sep: char)
    ensures s in Split(t, sep) <==> OccursAsLine(t, s, sep)
  {
    if s in Split(t, sep) {
      PieceOccursAsLine(t, s, sep);
    }
    if OccursAsLine(t, s, sep) {
      var i :| LineAt(t, s, i, sep);
      LineIsPiece(t, s, i, sep);
    }
  }

  lemma PieceOccursAsLine(t: string, s: string, sep: char)
    requires s in Split(t, sep)
    ensures OccursAsLine(t, s, sep)
  {
    var pieces := Split(t, sep);
    var k :| 0 <= k < |pieces| && pieces[k] == s;
    PiecesAvoidSeparator(t, sep, k);
    SplitThenJoin(t, sep);
    assert pieces == pieces[..k] + [s] + pieces[k + 1..];
    var left, right := JoinAround(pieces[..k], s, pieces[k + 1..], sep);
    LineAtSeam(left, s, right, sep);
  }

  /** The join of `p + [s] + q` puts `s` between a separator-ended left part and a separator-started right part. */
  lemma JoinAround(p: seq<string>, s: string, q: seq<string>, sep: char) returns (left: string, right: string)
    ensures Join(p + [s] + q, sep) == left + s + right
    ensures left == [] || left[|left| - 1] == sep
    ensures right == [] || right[0] == sep
  {
    left := if p == [] then [] else Join(p, sep) + [sep];
    right := if q == [] then [] else [sep] + Join(q, sep);
    if q != [] {
      JoinAppend([s], q, sep);
    }
    assert Join([s] + q, sep) == s + right;
    if p != [] {
      JoinAppend(p, [s] + q, sep);
      assert p + ([s] + q) == p + [s] + q;
    } else {
      assert [s] + q == p + [s] + q;
    }
  }

  /** A string placed between two separators (or text ends) is a line there. */
  lemma LineAtSeam(left: string, s: string, right: string, sep: char)
    requires left == [] || left[|left| - 1] == sep
    requires right == [] || right[0] == sep
    ensures LineAt(left + s + right, s, |left|, sep)
  {
    var t := left + s + right;
    assert t[|left|..|left| + |s|] == s;
    if left != [] {
      assert t[|left| - 1] == left[|left| - 1];
    }
    if right != [] {
      assert t[|left| + |s|] == right[0];
    }
  }

  lemma LineIsPiece(t: string, s: string, i: int, sep: char)
    requires sep !in s && LineAt(t, s, i, sep)
    ensures s in Split(t, sep)
  {
    var a, b := t[..i], t[i + |s|..];
    assert t == a + (s + b);
    FirstPiece(s, b, sep);
    if a != [] {
      assert a[|a| - 1] == t[i - 1];
    }
    PieceAfterSeparator(a, s + b, s, sep);
  }

  /** Separator-free text followed by nothing or a separator is the first piece. */
  lemma FirstPiece(s: string, b: string, sep: char)
    requires sep !in s
    requires b == [] || b[0] == sep
    ensures s in Split(s + b, sep)
  {
    SplitWithoutSeparator(s, sep);
    if b != [] {
      assert s + b == s + [sep] + b[1..];
      SplitConcat(s, b[1..], sep);
    } else {
      assert s + b == s;
    }
  }

  /** A piece of the text after a separator is a piece of the whole text. */
  lemma PieceAfterSeparator(a: string, u: string, s: string, sep: char)
    requires a == [] || a[|a| - 1] == sep
    requires s in Split(u, sep)
    ensures s in Split(a + u, sep)
  {
    if a != [] {
      var a' := a[..|a| - 1];
      assert a == a' + [sep];
      assert a + u == a' + [sep] + u;
      SplitConcat(a', u, sep);
    } else {
      assert a + u == u;
    }
  }
}
