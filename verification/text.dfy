/** JavaScript string primitives the repository relies on: the `\s` and `\w`
    regular-expression classes, `trim`, `split` on one character, `join`,
    `toLowerCase` (ASCII part), `includes` and decimal rendering of numbers. */
module Text {

  /** The `\s` class of JavaScript regular expressions, which is also the set
      of code points `String.prototype.trim` strips (WhiteSpace and
      LineTerminator). */
  predicate IsSpace(c: char) {
    var n := c as int;
    || (0x09 <= n <= 0x0D)
    || n == 0x20 || n == 0xA0 || n == 0x1680
    || (0x2000 <= n <= 0x200A)
    || (0x2028 <= n <= 0x2029) || n == 0x202F || n == 0x205F
    || n == 0x3000 || n == 0xFEFF
  }

  predicate IsAsciiLetter(c: char) {
    ('a' <= c <= 'z') || ('A' <= c <= 'Z')
  }

  predicate IsDigit(c: char) {
    '0' <= c <= '9'
  }

  /** The `\w` class of JavaScript regular expressions: `[A-Za-z0-9_]`. */
  predicate IsWordChar(c: char) {
    IsAsciiLetter(c) || IsDigit(c) || c == '_'
  }

  // ---------------------------------------------------------------------
  // trim

  /** Drops leading `\s` characters. */
  function TrimStart(s: string): (r: string)
    ensures |r| <= |s| && r == s[|s| - |r|..]
    ensures forall i | 0 <= i < |s| - |r| :: IsSpace(s[i])
    ensures r == [] || !IsSpace(r[0])
    decreases |s|
  {
    if s != [] && IsSpace(s[0]) then
      var r := TrimStart(s[1..]);
      SuffixOfTail(s, |r|);
      r
    else s
  }

  /** A suffix of the tail is a suffix of the whole. */
  lemma SuffixOfTail<T>(s: seq<T>, n: nat)
    requires n < |s|
    ensures s[1..][|s| - 1 - n..] == s[|s| - n..]
  {
  }

  /** Drops trailing `\s` characters. */
  function TrimEnd(s: string): (r: string)
    ensures |r| <= |s| && r == s[..|r|]
    ensures forall i | |r| <= i < |s| :: IsSpace(s[i])
    ensures r == [] || !IsSpace(r[|r| - 1])
    decreases |s|
  {
    if s != [] && IsSpace(s[|s| - 1]) then
      var r := TrimEnd(s[..|s| - 1]);
      PrefixOfFront(s, |r|);
      r
    else s
  }

  /** A prefix of the front is a prefix of the whole. */
  lemma PrefixOfFront<T>(s: seq<T>, n: nat)
    requires n < |s|
    ensures s[..|s| - 1][..n] == s[..n]
  {
  }

  /** A string with no `\s` character at either end. */
  predicate Trimmed(s: string) {
    s == [] || (!IsSpace(s[0]) && !IsSpace(s[|s| - 1]))
  }

  /** `String.prototype.trim`: the result is the contiguous piece of `s`
      that remains once the whitespace at both ends is dropped. */
  function Trim(s: string): (r: string)
    ensures Trimmed(r)
    ensures |r| <= |TrimStart(s)| <= |s|
    ensures r == s[|s| - |TrimStart(s)| .. |s| - |TrimStart(s)| + |r|]
    ensures forall i | 0 <= i < |s| - |TrimStart(s)| :: IsSpace(s[i])
    ensures forall i | |s| - |TrimStart(s)| + |r| <= i < |s| :: IsSpace(s[i])
  {
    var t := TrimStart(s);
    var r := TrimEnd(t);
    TrimCompose(s, t, r);
    r
  }

  /** The facts `Trim` states, from those of its two halves alone. */
  lemma TrimCompose(s: string, t: string, r: string)
    requires |t| <= |s| && t == s[|s| - |t|..] && (t == [] || !IsSpace(t[0]))
    requires forall i | 0 <= i < |s| - |t| :: IsSpace(s[i])
    requires |r| <= |t| && r == t[..|r|] && (r == [] || !IsSpace(r[|r| - 1]))
    requires forall j | |r| <= j < |t| :: IsSpace(t[j])
    ensures Trimmed(r)
    ensures |r| <= |t| <= |s|
    ensures forall i | 0 <= i < |s| - |t| :: IsSpace(s[i])
    ensures r == s[|s| - |t|..|s| - |t| + |r|]
    ensures forall i | |s| - |t| + |r| <= i < |s| :: IsSpace(s[i])
  {
    PrefixOfSuffix(s, |s| - |t|, |r|);
    assert r == [] || r[0] == t[0];
  }

  /** A prefix of a suffix is a slice, and the suffix's tail past it is the
      string's tail. */
  lemma PrefixOfSuffix<T>(s: seq<T>, a: nat, n: nat)
    requires a + n <= |s|
    ensures s[a..][..n] == s[a..a + n]
    ensures forall i | a + n <= i < |s| :: s[i] == s[a..][i - a]
  {
  }

  /** Text after a piece that is not all whitespace passes through
      `TrimStart` untouched, as does text that starts with a non-space. */
  lemma {:induction false} TrimStartAppend(p: string, q: string)
    requires TrimStart(p) != [] || q == [] || !IsSpace(q[0])
    ensures TrimStart(p + q) == TrimStart(p) + q
    decreases |p|
  {
    if p == [] {
      assert p + q == q;
    } else if IsSpace(p[0]) {
      var p' := p[1..];
      assert TrimStart(p + q) == TrimStart(p' + q) by {
        ConsTail(p, q);
        TrimStartStep(p + q);
      }
      TrimStartStep(p);
      TrimStartAppend(p', q);
    } else {
      assert (p + q)[0] == p[0];
    }
  }

  /** One leading space is dropped. */
  lemma TrimStartStep(s: string)
    requires s != [] && IsSpace(s[0])
    ensures TrimStart(s) == TrimStart(s[1..])
  {
  }

  /** The tail of a concatenation with a non-empty first part. */
  lemma ConsTail<T>(p: seq<T>, q: seq<T>)
    requires p != []
    ensures (p + q)[0] == p[0] && (p + q)[1..] == p[1..] + q
  {
  }

  /** The mirror image of `TrimStartAppend` for `TrimEnd`. */
  lemma {:induction false} TrimEndAppend(p: string, q: string)
    requires TrimEnd(q) != [] || p == [] || !IsSpace(p[|p| - 1])
    ensures TrimEnd(p + q) == p + TrimEnd(q)
    decreases |q|
  {
    if q == [] {
      assert p + q == p;
    } else if IsSpace(q[|q| - 1]) {
      var q' := q[..|q| - 1];
      assert TrimEnd(p + q) == TrimEnd(p + q') by {
        SnocFront(p, q);
        TrimEndStep(p + q);
      }
      TrimEndStep(q);
      TrimEndAppend(p, q');
    } else {
      assert (p + q)[|p + q| - 1] == q[|q| - 1];
    }
  }

  /** One trailing space is dropped. */
  lemma TrimEndStep(s: string)
    requires s != [] && IsSpace(s[|s| - 1])
    ensures TrimEnd(s) == TrimEnd(s[..|s| - 1])
  {
  }

  /** The front of a concatenation with a non-empty last part. */
  lemma SnocFront<T>(p: seq<T>, q: seq<T>)
    requires q != []
    ensures (p + q)[|p + q| - 1] == q[|q| - 1] && (p + q)[..|p + q| - 1] == p + q[..|q| - 1]
  {
  }

  /** Trimming around one space between two pieces that do not touch it
      with whitespace trims each piece on its own. */
  lemma TrimAroundSpace(x: string, y: string)
    requires x != [] && !IsSpace(x[|x| - 1])
    requires y != [] && !IsSpace(y[0])
    ensures Trim(x + " " + y) == Trim(x) + " " + Trim(y)
  {
    TrimAroundMiddle(x, " ", y);
  }

  /** Between an outer piece that ends and one that starts with a
      non-space, trimming keeps the middle as it is. */
  lemma {:induction false} TrimAroundMiddle(x: string, w: string, y: string)
    requires x != [] && !IsSpace(x[|x| - 1])
    requires y != [] && !IsSpace(y[0])
    ensures Trim(x + w + y) == Trim(x) + w + Trim(y)
  {
    var t := TrimStart(x);
    var z := x + w + y;
    TrimAroundMiddleParts(x, w, y, t, z);
    assert Trim(z) == TrimEnd(TrimStart(z));
    assert Trim(x) == TrimEnd(t);
  }

  lemma {:induction false} TrimAroundMiddleParts(x: string, w: string, y: string, t: string, z: string)
    requires x != [] && !IsSpace(x[|x| - 1])
    requires y != [] && !IsSpace(y[0])
    requires t == TrimStart(x) && z == x + w + y
    ensures TrimEnd(TrimStart(z)) == TrimEnd(t) + w + TrimEnd(TrimStart(y))
  {
    var wy := w + y;
    assert TrimStart(z) == t + wy by {
      Assoc(x, w, y);
      TrimStartKeepsLast(x);
      TrimStartAppend(x, wy);
    }
    assert TrimEnd(t + wy) == (t + w) + TrimEnd(y) by {
      Assoc(t, w, y);
      TrimEndKeepsFirst(y);
      TrimEndAppend(t + w, y);
    }
    assert TrimEnd(t) == t by {
      TrimStartKeepsLast(x);
    }
    assert TrimStart(y) == y;
  }

  /** Concatenation is associative. */
  lemma Assoc<T>(a: seq<T>, b: seq<T>, c: seq<T>)
    ensures a + (b + c) == a + b + c
  {
  }

  /** `TrimEnd` keeps a non-space first character. */
  lemma TrimEndKeepsFirst(y: string)
    requires y != [] && !IsSpace(y[0])
    ensures TrimEnd(y) != [] && TrimEnd(y)[0] == y[0]
  {
  }

  /** `TrimStart` keeps a non-space last character. */
  lemma TrimStartKeepsLast(x: string)
    requires x != [] && !IsSpace(x[|x| - 1])
    ensures TrimStart(x) != [] && TrimStart(x)[|TrimStart(x)| - 1] == x[|x| - 1]
  {
  }

  /** Trimming leaves a trimmed string as it is. */
  lemma TrimOfTrimmed(s: string)
    requires Trimmed(s)
    ensures Trim(s) == s
  {
  }

  /** Leading whitespace does not change the trimmed value. */
  lemma TrimSkipsLeadingSpace(c: char, s: string)
    requires IsSpace(c)
    ensures Trim([c] + s) == Trim(s)
  {
    assert ([c] + s)[1..] == s;
  }

  /** Trimming removes characters and never adds one. */
  lemma TrimKeepsAbsent(s: string, c: char)
    requires c !in s
    ensures c !in Trim(s)
  {
    var a := |s| - |TrimStart(s)|;
    SliceKeepsAbsent(s, a, a + |Trim(s)|, c);
  }

  lemma SliceKeepsAbsent<T>(s: seq<T>, a: nat, b: nat, c: T)
    requires a <= b <= |s| && c !in s
    ensures c !in s[a..b]
  {
  }

  // ---------------------------------------------------------------------
  // the non-whitespace characters of a string

  /** The characters of `s` that are not whitespace, in order. */
  function NonSpace(s: string): string
    decreases |s|
  {
    if s == [] then [] else (if IsSpace(s[0]) then [] else [s[0]]) + NonSpace(s[1..])
  }

  /** One step of `NonSpace`. */
  lemma NonSpaceCons(c: char, t: string)
    ensures NonSpace([c] + t) == (if IsSpace(c) then [] else [c]) + NonSpace(t)
  {
    assert ([c] + t)[1..] == t;
  }

  lemma {:induction false} NonSpaceOfTrimStart(s: string)
    ensures NonSpace(TrimStart(s)) == NonSpace(s)
    decreases |s|
  {
    if s != [] && IsSpace(s[0]) {
      NonSpaceOfTrimStart(s[1..]);
    }
  }

  lemma NonSpaceOfTrim(s: string)
    ensures NonSpace(Trim(s)) == NonSpace(s)
  {
    var r := Trim(s);
    var a := |s| - |TrimStart(s)|;
    NonSpaceOfMiddle(s, a, a + |r|);
  }

  /** Dropping whitespace from both ends keeps the non-whitespace
      characters. */
  lemma {:induction false} NonSpaceOfMiddle(s: string, a: nat, b: nat)
    requires a <= b <= |s|
    requires forall i | 0 <= i < a :: IsSpace(s[i])
    requires forall i | b <= i < |s| :: IsSpace(s[i])
    ensures NonSpace(s[a..b]) == NonSpace(s)
    decreases a
  {
    if a == 0 {
      NonSpaceDropTrailing(s, b);
      assert s[0..b] == s[..b];
    } else {
      var t := s[1..];
      assert forall i | 0 <= i < a - 1 :: t[i] == s[i + 1];
      assert forall i | b - 1 <= i < |t| :: t[i] == s[i + 1];
      NonSpaceOfMiddle(t, a - 1, b - 1);
      SliceOfTail(s, a, b);
      assert NonSpace(s) == NonSpace(t);
    }
  }

  /** A slice of the tail is the slice shifted by one. */
  lemma SliceOfTail<T>(s: seq<T>, a: nat, b: nat)
    requires 1 <= a <= b <= |s|
    ensures s[1..][a - 1..b - 1] == s[a..b]
  {
  }

  lemma {:induction false} NonSpaceDropTrailing(s: string, b: nat)
    requires b <= |s|
    requires forall i | b <= i < |s| :: IsSpace(s[i])
    ensures NonSpace(s[..b]) == NonSpace(s)
    decreases |s|
  {
    if b == 0 {
      NonSpaceOfSpaces(s);
    } else {
      var t := s[1..];
      assert forall i | b - 1 <= i < |t| :: t[i] == s[i + 1];
      NonSpaceDropTrailing(t, b - 1);
      assert s[..b][1..] == t[..b - 1];
    }
  }

  lemma {:induction false} NonSpaceAppend(a: string, b: string)
    ensures NonSpace(a + b) == NonSpace(a) + NonSpace(b)
    decreases |a|
  {
    if a != [] {
      assert (a + b)[1..] == a[1..] + b;
      NonSpaceAppend(a[1..], b);
    } else {
      assert a + b == b;
    }
  }

  lemma {:induction false} NonSpaceOfSpaces(s: string)
    requires forall i | 0 <= i < |s| :: IsSpace(s[i])
    ensures NonSpace(s) == []
    decreases |s|
  {
    if s != [] {
      NonSpaceOfSpaces(s[1..]);
    }
  }

  // ---------------------------------------------------------------------
  // toLowerCase

  /** `toLowerCase` on one code point, for the ASCII letters. */
  function LowerChar(c: char): char {
    if 'A' <= c <= 'Z' then (c as int + 32) as char else c
  }

  /** `toLowerCase`, restricted to the ASCII letters. */
  function ToLower(s: string): (r: string)
    ensures |r| == |s|
    ensures forall i | 0 <= i < |s| :: r[i] == LowerChar(s[i])
  {
    seq(|s|, i requires 0 <= i < |s| => LowerChar(s[i]))
  }

  // ---------------------------------------------------------------------
  // split and join

  /** `String.prototype.split` with a one-character separator: the pieces
      between separators, so there is always at least one piece. */
  function Split(s: string, sep: char): (parts: seq<string>)
    ensures |parts| >= 1
    ensures forall i | 0 <= i < |parts| :: sep !in parts[i]
    decreases |s|
  {
    if s == [] then [[]]
    else
      var rest := Split(s[1..], sep);
      if s[0] == sep then [[]] + rest
      else [[s[0]] + rest[0]] + rest[1..]
  }

  /** `Array.prototype.join`. */
  function Join(parts: seq<string>, sep: string): string
    decreases |parts|
  {
    if |parts| == 0 then []
    else if |parts| == 1 then parts[0]
    else parts[0] + sep + Join(parts[1..], sep)
  }

  /** A separator-free prefix joins onto the first piece of the split. */
  lemma {:induction false} SplitPrefix(p: string, t: string, sep: char)
    requires sep !in p
    ensures Split(p + t, sep) == [p + Split(t, sep)[0]] + Split(t, sep)[1..]
    decreases |p|
  {
    if p != [] {
      SplitPrefix(p[1..], t, sep);
      SplitPrefixStep(p, t, sep, Split(t, sep)[0], Split(t, sep)[1..]);
    } else {
      assert p + t == t;
      assert [] + Split(t, sep)[0] == Split(t, sep)[0];
    }
  }

  /** One more separator-free character in front joins the first piece. */
  lemma SplitPrefixStep(p: string, t: string, sep: char, first: string, rest: seq<string>)
    requires p != [] && p[0] != sep
    requires Split(p[1..] + t, sep) == [p[1..] + first] + rest
    ensures Split(p + t, sep) == [p + first] + rest
  {
    ConsTail(p, t);
    assert [p[0]] + (p[1..] + first) == p + first;
  }

  /** Joining the pieces of a split with the separator gives back the input. */
  lemma {:induction false} JoinSplit(s: string, sep: char)
    ensures Join(Split(s, sep), [sep]) == s
    decreases |s|
  {
    if s != [] {
      var rest := Split(s[1..], sep);
      JoinSplit(s[1..], sep);
      if s[0] != sep {
        if |rest| > 1 {
          assert Join(rest, [sep]) == rest[0] + [sep] + Join(rest[1..], [sep]);
          var parts := [[s[0]] + rest[0]] + rest[1..];
          assert parts[1..] == rest[1..];
        }
      } else {
        assert Join([[]] + rest, [sep]) == [] + [sep] + Join(rest, [sep]) by {
          assert ([[]] + rest)[1..] == rest;
        }
      }
    }
  }

  /** Splitting a join of separator-free pieces gives back the pieces. */
  lemma {:induction false} SplitJoin(parts: seq<string>, sep: char)
    requires |parts| >= 1
    requires forall i | 0 <= i < |parts| :: sep !in parts[i]
    ensures Split(Join(parts, [sep]), sep) == parts
    decreases |parts|
  {
    if |parts| == 1 {
      SplitPrefix(parts[0], [], sep);
      assert parts[0] + [] == parts[0];
    } else {
      var tail := Join(parts[1..], [sep]);
      SplitJoin(parts[1..], sep);
      SplitPrefix(parts[0], [sep] + tail, sep);
      assert parts[0] + [sep] + tail == parts[0] + ([sep] + tail);
      assert ([sep] + tail)[1..] == tail;
      assert Split([sep] + tail, sep) == [[]] + parts[1..];
      assert parts[0] + [] == parts[0];
      assert parts == [parts[0]] + parts[1..];
    }
  }

  /** Joining with `", "` is joining with `","` after prefixing every piece
      but the first with one space. */
  lemma {:induction false} JoinCommaSpace(xs: seq<string>)
    requires |xs| >= 1
    ensures Join(xs, ", ") == Join([xs[0]] + SpacePrefixed(xs[1..]), ",")
  {
    if |xs| > 1 {
      var ys := [xs[0]] + SpacePrefixed(xs[1..]);
      assert ys[1..] == SpacePrefixed(xs[1..]);
      JoinSpacePrefixed(xs[1..]);
      assert xs[0] + "," + (" " + Join(xs[1..], ", ")) == xs[0] + ", " + Join(xs[1..], ", ");
    }
  }

  /** Joining the space-prefixed strings with `","` is joining the strings
      with `", "`, behind one space. */
  lemma {:induction false} JoinSpacePrefixed(xs: seq<string>)
    requires |xs| >= 1
    ensures Join(SpacePrefixed(xs), ",") == " " + Join(xs, ", ")
    decreases |xs|
  {
    var ys := SpacePrefixed(xs);
    if |xs| > 1 {
      assert ys[1..] == SpacePrefixed(xs[1..]);
      JoinSpacePrefixed(xs[1..]);
      assert " " + xs[0] + "," + (" " + Join(xs[1..], ", ")) == " " + (xs[0] + ", " + Join(xs[1..], ", "));
    }
  }

  /** Every string of `xs` with one leading space. */
  function SpacePrefixed(xs: seq<string>): (r: seq<string>)
    ensures |r| == |xs|
    ensures forall i | 0 <= i < |xs| :: r[i] == " " + xs[i]
  {
    seq(|xs|, i requires 0 <= i < |xs| => " " + xs[i])
  }

  /** Every string of `xs`, trimmed. */
  function TrimAll(xs: seq<string>): (r: seq<string>)
    ensures |r| == |xs|
    ensures forall i | 0 <= i < |xs| :: r[i] == Trim(xs[i])
  {
    seq(|xs|, i requires 0 <= i < |xs| => Trim(xs[i]))
  }

  /** Trimming the pieces before joining them removes only whitespace. */
  lemma {:induction false} NonSpaceJoinTrimAll(xs: seq<string>, sep: string)
    ensures NonSpace(Join(TrimAll(xs), sep)) == NonSpace(Join(xs, sep))
    decreases |xs|
  {
    var ys := TrimAll(xs);
    if |xs| == 1 {
      NonSpaceOfTrim(xs[0]);
    } else if |xs| > 1 {
      NonSpaceJoinTrimAll(xs[1..], sep);
      assert ys[1..] == TrimAll(xs[1..]);
      NonSpaceOfTrim(xs[0]);
      NonSpaceAppend(ys[0] + sep, Join(ys[1..], sep));
      NonSpaceAppend(ys[0], sep);
      NonSpaceAppend(xs[0] + sep, Join(xs[1..], sep));
      NonSpaceAppend(xs[0], sep);
    }
  }

  /** A non-empty list of trimmed, comma-free strings survives being joined
      with `", "`, split on `','` and trimmed piece by piece. */
  lemma JoinSplitTrimRoundTrip(xs: seq<string>)
    requires |xs| >= 1
    requires forall i | 0 <= i < |xs| :: ',' !in xs[i] && Trimmed(xs[i])
    ensures TrimAll(Split(Join(xs, ", "), ',')) == xs
  {
    var ys := [xs[0]] + SpacePrefixed(xs[1..]);
    JoinCommaSpace(xs);
    CommaFreeSpacePrefixed(xs);
    SplitJoin(ys, ',');
    TrimAllSpacePrefixed(xs);
  }

  lemma CommaFreeSpacePrefixed(xs: seq<string>)
    requires |xs| >= 1
    requires forall i | 0 <= i < |xs| :: ',' !in xs[i]
    ensures forall i | 0 <= i < |xs| :: ',' !in ([xs[0]] + SpacePrefixed(xs[1..]))[i]
  {
    var ys := [xs[0]] + SpacePrefixed(xs[1..]);
    forall i | 0 <= i < |ys| ensures ',' !in ys[i] {
      if i > 0 {
        assert ys[i] == " " + xs[i];
      }
    }
  }

  lemma TrimAllSpacePrefixed(xs: seq<string>)
    requires |xs| >= 1
    requires forall i | 0 <= i < |xs| :: Trimmed(xs[i])
    ensures TrimAll([xs[0]] + SpacePrefixed(xs[1..])) == xs
  {
    var ys := [xs[0]] + SpacePrefixed(xs[1..]);
    forall i | 0 <= i < |xs| ensures Trim(ys[i]) == xs[i] {
      TrimSpacePrefixedAt(xs, i);
    }
    TrimAllPointwise(ys, xs);
  }

  /** `TrimAll` yields `xs` when each piece trims to its entry. */
  lemma TrimAllPointwise(ys: seq<string>, xs: seq<string>)
    requires |ys| == |xs| && forall i | 0 <= i < |ys| :: Trim(ys[i]) == xs[i]
    ensures TrimAll(ys) == xs
  {
    SameElements(TrimAll(ys), xs);
  }

  /** Equal tails behind the same prefix, for sequences named by other
      means. */
  lemma SamePrefixed<T>(c: seq<T>, a: seq<T>, b: seq<T>, x: seq<T>, y: seq<T>)
    requires x == c + a && y == c + b && a == b
    ensures x == y
  {
  }

  /** Regrouping `c + (a + b)` as `(c + a) + b`, for sequences named by
      other means. */
  lemma Regroup<T>(c: seq<T>, x: seq<T>, y: seq<T>, a: seq<T>, b: seq<T>, z: seq<T>)
    requires x == c + y && y == a + b && z == c + a
    ensures x == z + b
  {
  }

  /** Two sequences with the same length and elements are equal. */
  lemma SameElements<T>(a: seq<T>, b: seq<T>)
    requires |a| == |b| && forall i | 0 <= i < |a| :: a[i] == b[i]
    ensures a == b
  {
  }

  lemma TrimSpacePrefixedAt(xs: seq<string>, i: nat)
    requires i < |xs|
    requires forall j | 0 <= j < |xs| :: Trimmed(xs[j])
    ensures Trim(([xs[0]] + SpacePrefixed(xs[1..]))[i]) == xs[i]
  {
    if i == 0 {
      TrimOfTrimmed(xs[0]);
    } else {
      assert ([xs[0]] + SpacePrefixed(xs[1..]))[i] == " " + xs[i];
      TrimSpacePrefixed(xs[i]);
    }
  }

  lemma TrimSpacePrefixed(x: string)
    requires Trimmed(x)
    ensures Trim(" " + x) == x
  {
    TrimSkipsLeadingSpace(' ', x);
    TrimOfTrimmed(x);
  }

  // ---------------------------------------------------------------------
  // includes

  /** `String.prototype.includes`: `t` occurs in `s` as a contiguous piece. */
  predicate Contains(s: string, t: string) {
    exists i | 0 <= i <= |s| - |t| :: OccursAt(s, t, i)
  }

  /** `t` occurs in `s` starting at index `i`. */
  predicate OccursAt(s: string, t: string, i: int) {
    0 <= i <= |s| - |t| && s[i..i + |t|] == t
  }

  // ---------------------------------------------------------------------
  // numbers as decimal text

  /** The decimal digit character for `d`. */
  function DigitChar(d: nat): (c: char)
    requires d < 10
    ensures IsDigit(c)
  {
    ('0' as int + d) as char
  }

  /** The value of a decimal digit character. */
  function DigitValue(c: char): (d: nat)
    requires IsDigit(c)
    ensures d < 10 && DigitChar(d) == c
  {
    c as int - '0' as int
  }

  /** `String(n)` for a non-negative integer. */
  function NatToString(n: nat): (r: string)
    ensures |r| >= 1
    ensures forall i | 0 <= i < |r| :: IsDigit(r[i])
    ensures n < 10 <==> |r| == 1
    ensures 10 <= n < 100 <==> |r| == 2
    decreases n
  {
    if n < 10 then [DigitChar(n)] else NatToString(n / 10) + [DigitChar(n % 10)]
  }

  /** `String(n)` for any integer. */
  function IntToString(n: int): string {
    if n < 0 then "-" + NatToString(-n) else NatToString(n)
  }

  /** The value of a string of decimal digits. */
  function DecimalValue(s: string): nat
    requires forall i | 0 <= i < |s| :: IsDigit(s[i])
    decreases |s|
  {
    if s == [] then 0 else DecimalValue(s[..|s| - 1]) * 10 + DigitValue(s[|s| - 1])
  }

  /** Reading back the decimal rendering of `n` gives `n`. */
  lemma {:induction false} DecimalOfNatToString(n: nat)
    ensures DecimalValue(NatToString(n)) == n
    decreases n
  {
    if n >= 10 {
      DecimalOfNatToString(n / 10);
      var s := NatToString(n);
      assert s[..|s| - 1] == NatToString(n / 10);
    }
  }
}
