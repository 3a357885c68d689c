/**
 The two string operations the alert form relies on when it turns the raw
 keyword field into a list: JavaScript's `String.prototype.split` with a
 one-character separator and `String.prototype.trim`.
 */
module Text {

  /** The code points `trim` removes: ECMAScript's WhiteSpace (tab, vertical
      tab, form feed, the byte order mark and every space separator) and its
      LineTerminator (line feed, carriage return, line and paragraph
      separators). */
  predicate IsJsWhitespace(c: char) {
    || c == '\t' || c == '\n' || c == '\U{000B}' || c == '\U{000C}' || c == '\r'
    || c == ' ' || c == '\U{00A0}' || c == '\U{1680}'
    || ('\U{2000}' <= c <= '\U{200A}')
    || c == '\U{2028}' || c == '\U{2029}' || c == '\U{202F}' || c == '\U{205F}'
    || c == '\U{3000}' || c == '\U{FEFF}'
  }

  predicate AllWhitespace(s: string) {
    forall i :: 0 <= i < |s| ==> IsJsWhitespace(s[i])
  }

  /** `r` is what is left of `s` once the whitespace run `s[..k]` in front
      and the whitespace run behind `r` are cut away, and neither end of `r`
      is whitespace. */
  ghost predicate IsTrimOf(s: string, r: string, k: nat) {
    && k + |r| <= |s|
    && r == s[k..k + |r|]
    && AllWhitespace(s[..k])
    && AllWhitespace(s[k + |r|..])
    && (r != [] ==> !IsJsWhitespace(r[0]) && !IsJsWhitespace(r[|r| - 1]))
  }

  /** Leading whitespace removed. */
  function TrimStart(s: string): string {
    if s != [] && IsJsWhitespace(s[0]) then TrimStart(s[1..]) else s
  }

  /** Trailing whitespace removed. */
  function TrimEnd(s: string): string {
    if s != [] && IsJsWhitespace(s[|s| - 1]) then TrimEnd(s[..|s| - 1]) else s
  }

  /** `s.trim()`. */
  function Trim(s: string): string {
    TrimEnd(TrimStart(s))
  }

  /** `TrimStart` removes a whitespace prefix, and the rest does not start
      with whitespace. */
  lemma {:induction false} TrimStartSpec(s: string)
    ensures var r := TrimStart(s);
      && |r| <= |s| && r == s[|s| - |r|..]
      && AllWhitespace(s[..|s| - |r|])
      && (r != [] ==> !IsJsWhitespace(r[0]))
  {
    if s != [] && IsJsWhitespace(s[0]) {
      TrimStartSpec(s[1..]);
    }
  }

  /** `TrimEnd` removes a whitespace suffix, and the rest does not end with
      whitespace. */
  lemma {:induction false} TrimEndSpec(s: string)
    ensures var r := TrimEnd(s);
      && |r| <= |s| && r == s[..|r|]
      && AllWhitespace(s[|r|..])
      && (r != [] ==> !IsJsWhitespace(r[|r| - 1]))
  {
    if s != [] && IsJsWhitespace(s[|s| - 1]) {
      var init := s[..|s| - 1];
      TrimEndSpec(init);
      var r := TrimEnd(init);
      assert init[..|r|] == s[..|r|];
      assert s[|r|..] == init[|r|..] + [s[|s| - 1]];
    }
  }

  /** `Trim` removes whitespace from both ends and keeps the inside. */
  lemma TrimSpec(s: string)
    ensures exists k: nat :: IsTrimOf(s, Trim(s), k)
  {
    var t := TrimStart(s);
    var r := TrimEnd(t);
    TrimStartSpec(s);
    TrimEndSpec(t);
    var k: nat := |s| - |t|;
    assert s[k..k + |r|] == r;
    assert s[k + |r|..] == t[|r|..];
    assert r != [] ==> r[0] == t[0];
    assert r == Trim(s);
    assert IsTrimOf(s, Trim(s), k);
  }

  /** Trimming keeps only characters of the input and leaves no whitespace
      at either end. */
  lemma TrimShape(s: string)
    ensures forall c :: c in Trim(s) ==> c in s
    ensures var r := Trim(s); r != [] ==> !IsJsWhitespace(r[0]) && !IsJsWhitespace(r[|r| - 1])
  {
    var t := TrimStart(s);
    TrimStartSpec(s);
    TrimEndSpec(t);
    var r := Trim(s);
    var k := |s| - |t|;
    forall c | c in r ensures c in s {
      var i :| 0 <= i < |r| && r[i] == c;
      assert r[i] == t[i] == s[k + i];
    }
    assert r != [] ==> r[0] == t[0];
  }

  /** The characterisation of `IsTrimOf` leaves no choice: at most one
      string is the trim of a given string. */
  lemma TrimOfUnique(s: string, r1: string, k1: nat, r2: string, k2: nat)
    requires IsTrimOf(s, r1, k1) && IsTrimOf(s, r2, k2)
    ensures r1 == r2
  {
    TrimOfBounds(s, r1, k1);
    TrimOfBounds(s, r2, k2);
    if r1 != [] {
      assert k1 == k2 && |r1| == |r2|;
    }
  }

  /** What `IsTrimOf` says about the positions of `s`: the trim is empty
      exactly when `s` is all whitespace, and otherwise it starts at the
      first and ends at the last non-whitespace position. */
  lemma TrimOfBounds(s: string, r: string, k: nat)
    requires IsTrimOf(s, r, k)
    ensures r == [] <==> AllWhitespace(s)
    ensures r != [] ==>
      && !IsJsWhitespace(s[k]) && !IsJsWhitespace(s[k + |r| - 1])
      && (forall i :: 0 <= i < k ==> IsJsWhitespace(s[i]))
      && (forall i :: k + |r| <= i < |s| ==> IsJsWhitespace(s[i]))
  {
    if r == [] {
      forall i | 0 <= i < |s| ensures IsJsWhitespace(s[i]) {
        if i < k {
          assert s[..k][i] == s[i];
        } else {
          assert s[k..][i - k] == s[i];
        }
      }
    } else {
      assert s[k] == r[0] && s[k + |r| - 1] == r[|r| - 1];
      forall i | 0 <= i < k ensures IsJsWhitespace(s[i]) {
        assert s[..k][i] == s[i];
      }
      forall i | k + |r| <= i < |s| ensures IsJsWhitespace(s[i]) {
        assert s[k + |r|..][i - k - |r|] == s[i];
      }
    }
  }

  /** Trimming a string with no whitespace at either end changes nothing. */
  lemma TrimKeepsUntrimmed(s: string)
    requires s != [] ==> !IsJsWhitespace(s[0]) && !IsJsWhitespace(s[|s| - 1])
    ensures Trim(s) == s
  {
    TrimSpec(s);
    var k: nat :| IsTrimOf(s, Trim(s), k);
    assert s[0..0 + |s|] == s;
    assert IsTrimOf(s, s, 0);
    TrimOfUnique(s, Trim(s), k, s, 0);
  }

  /** Whitespace in front of an untrimmed string is all that trimming
      removes. */
  lemma TrimDropsWhitespace(w: string, s: string)
    requires AllWhitespace(w)
    requires s != [] ==> !IsJsWhitespace(s[0]) && !IsJsWhitespace(s[|s| - 1])
    ensures Trim(w + s) == s
  {
    var t := w + s;
    TrimSpec(t);
    var k: nat :| IsTrimOf(t, Trim(t), k);
    assert t[..|w|] == w && t[|w|..|w| + |s|] == s && t[|w| + |s|..] == [];
    assert IsTrimOf(t, s, |w|);
    TrimOfUnique(t, Trim(t), k, s, |w|);
  }

  /** Trimming twice is trimming once. */
  lemma TrimIdempotent(s: string)
    ensures Trim(Trim(s)) == Trim(s)
  {
    TrimSpec(s);
    var k: nat :| IsTrimOf(s, Trim(s), k);
    TrimKeepsUntrimmed(Trim(s));
  }

  /** `parts` joined with `sep` between neighbours, the inverse of `Split`. */
  function Join(parts: seq<string>, sep: char): string {
    if parts == [] then []
    else if |parts| == 1 then parts[0]
    else parts[0] + [sep] + Join(parts[1..], sep)
  }

  /** The number of occurrences of `c` in `s`. */
  function Occurrences(s: string, c: char): (n: nat)
    ensures n <= |s|
  {
    if s == [] then 0 else (if s[0] == c then 1 else 0) + Occurrences(s[1..], c)
  }

  /** `Occurrences` agrees with the multiset count. */
  lemma {:induction false} OccurrencesIsMultiplicity(s: string, c: char)
    ensures Occurrences(s, c) == multiset(s)[c]
  {
    if s != [] {
      OccurrencesIsMultiplicity(s[1..], c);
      assert s == [s[0]] + s[1..];
    }
  }

  /** `s.split(sep)` for a one-character separator: the maximal runs between
      separators, in order, empty runs included; the number of pieces is
      one more than the number of separators. */
  function Split(s: string, sep: char): (r: seq<string>)
    ensures |r| == Occurrences(s, sep) + 1
    ensures forall i :: 0 <= i < |r| ==> sep !in r[i]
  {
    if s == [] then [[]]
    else
      var rest := Split(s[1..], sep);
      if s[0] == sep then [[]] + rest
      else [[s[0]] + rest[0]] + rest[1..]
  }

  /** Joining the pieces back together gives the original string, so the
      pieces are in input order and nothing is lost. */
  lemma {:induction false} JoinSplit(s: string, sep: char)
    ensures Join(Split(s, sep), sep) == s
  {
    if s != [] {
      var rest := Split(s[1..], sep);
      JoinSplit(s[1..], sep);
      if s[0] == sep {
        assert Split(s, sep) == [[]] + rest;
        assert ([[]] + rest)[1..] == rest;
      } else {
        var r := Split(s, sep);
        assert r == [[s[0]] + rest[0]] + rest[1..];
        if |rest| == 1 {
          assert Join(r, sep) == [s[0]] + rest[0];
        } else {
          assert r[1..] == rest[1..];
          assert Join(rest, sep) == rest[0] + [sep] + Join(rest[1..], sep);
          assert Join(r, sep) == [s[0]] + rest[0] + [sep] + Join(rest[1..], sep);
        }
        assert s == [s[0]] + s[1..];
      }
    }
  }

  /** A piece followed by the separator splits off as the first piece. */
  lemma {:induction false} SplitAfterPiece(a: string, sep: char, b: string)
    requires sep !in a
    ensures Split(a + [sep] + b, sep) == [a] + Split(b, sep)
  {
    var s := a + [sep] + b;
    if a == [] {
      assert s[1..] == b;
    } else {
      assert s[0] == a[0];
      assert s[1..] == a[1..] + [sep] + b;
      SplitAfterPiece(a[1..], sep, b);
      assert [a[0]] + a[1..] == a;
    }
  }

  /** A string with no separator in it is a single piece. */
  lemma {:induction false} SplitNoSeparator(s: string, sep: char)
    requires sep !in s
    ensures Split(s, sep) == [s]
  {
    if s != [] {
      SplitNoSeparator(s[1..], sep);
      assert [s[0]] + s[1..] == s;
    }
  }

  /** `Split` is the only way to cut a string into separator-free pieces that
      join back to it. */
  lemma {:induction false} SplitUnique(parts: seq<string>, sep: char)
    requires |parts| >= 1
    requires forall i :: 0 <= i < |parts| ==> sep !in parts[i]
    ensures Split(Join(parts, sep), sep) == parts
  {
    if |parts| == 1 {
      SplitNoSeparator(parts[0], sep);
    } else {
      assert forall i :: 0 <= i < |parts[1..]| ==> sep !in parts[1..][i] by {
        forall i | 0 <= i < |parts[1..]| ensures sep !in parts[1..][i] {
          assert parts[1..][i] == parts[i + 1];
        }
      }
      SplitUnique(parts[1..], sep);
      assert sep !in parts[0];
      SplitAfterPiece(parts[0], sep, Join(parts[1..], sep));
      assert [parts[0]] + parts[1..] == parts;
    }
  }
}
