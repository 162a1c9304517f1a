/**
  The two java.lang.String operations the axis relies on, modelled with the
  semantics they have in Java:

  - `s.split(sep)` for a one-character separator that is not a regular
    expression metacharacter (`","` and `" "` both are such): when the
    separator does not occur, the result is `[s]` (so `""` gives `[""]`);
    otherwise the string is cut at every separator and trailing empty pieces
    are dropped (so `",,"` gives `[]`, while leading and inner empty pieces
    stay).
  - `s.trim()`: remove every leading and trailing character whose code is at
    most U+0020.
 */
module JavaStrings {

  /** The characters `String.trim` removes. */
  predicate IsTrimmable(c: char) {
    c <= ' '
  }

  /** Leading trimmable characters removed. */
  function TrimStart(s: string): string {
    if s != [] && IsTrimmable(s[0]) then TrimStart(s[1..]) else s
  }

  /** Trailing trimmable characters removed. */
  function TrimEnd(s: string): string {
    if s != [] && IsTrimmable(s[|s| - 1]) then TrimEnd(s[..|s| - 1]) else s
  }

  lemma {:induction false} TrimStartCuts(s: string)
    ensures |TrimStart(s)| <= |s| && TrimStart(s) == s[|s| - |TrimStart(s)|..]
    ensures TrimStart(s) == [] || !IsTrimmable(TrimStart(s)[0])
    ensures forall k :: 0 <= k < |s| - |TrimStart(s)| ==> IsTrimmable(s[k])
  {
    if s != [] && IsTrimmable(s[0]) {
      var t := TrimStart(s[1..]);
      TrimStartCuts(s[1..]);
      assert TrimStart(s) == t;
      assert s[1..][|s| - 1 - |t|..] == s[|s| - |t|..];
      forall k | 0 <= k < |s| - |t| ensures IsTrimmable(s[k]) {
        if k > 0 {
          assert s[k] == s[1..][k - 1];
        }
      }
    }
  }

  lemma {:induction false} TrimEndCuts(s: string)
    ensures |TrimEnd(s)| <= |s| && TrimEnd(s) == s[..|TrimEnd(s)|]
    ensures TrimEnd(s) == [] || !IsTrimmable(TrimEnd(s)[|TrimEnd(s)| - 1])
    ensures forall k :: |TrimEnd(s)| <= k < |s| ==> IsTrimmable(s[k])
  {
    if s != [] && IsTrimmable(s[|s| - 1]) {
      var init := s[..|s| - 1];
      var t := TrimEnd(init);
      TrimEndCuts(init);
      assert TrimEnd(s) == t;
      assert init[..|t|] == s[..|t|];
      forall k | |t| <= k < |s| ensures IsTrimmable(s[k]) {
        if k < |s| - 1 {
          assert s[k] == init[k];
        }
      }
    }
  }

  /** `r` is the piece of `s` starting at `i`, and everything of `s` outside
      that piece is trimmable. */
  ghost predicate TrimmedAt(s: string, r: string, i: int) {
    && 0 <= i <= |s| - |r|
    && r == s[i..i + |r|]
    && (forall k :: 0 <= k < i ==> IsTrimmable(s[k]))
    && (forall k :: i + |r| <= k < |s| ==> IsTrimmable(s[k]))
  }

  /** `String.trim`. */
  function Trim(s: string): string {
    TrimEnd(TrimStart(s))
  }

  /** What `Trim` promises: the result is a contiguous piece of `s` with no
      trimmable character at either end, and everything cut off is trimmable. */
  lemma TrimCuts(s: string)
    ensures exists i :: TrimmedAt(s, Trim(s), i)
    ensures Trim(s) == [] || (!IsTrimmable(Trim(s)[0]) && !IsTrimmable(Trim(s)[|Trim(s)| - 1]))
  {
    var t := TrimStart(s);
    TrimStartCuts(s);
    TrimEndCuts(t);
    assert TrimmedAt(s, Trim(s), |s| - |t|);
  }

  /** Trimming twice is trimming once. */
  lemma TrimIdempotent(s: string)
    ensures Trim(Trim(s)) == Trim(s)
  {
    var r := Trim(s);
    TrimCuts(s);
    assert TrimStart(r) == r;
    assert TrimEnd(r) == r;
  }

  /** A string made only of trimmable characters trims to the empty string. */
  lemma {:induction false} TrimBlank(s: string)
    requires forall k :: 0 <= k < |s| ==> IsTrimmable(s[k])
    ensures Trim(s) == []
  {
    if s != [] {
      TrimBlank(s[1..]);
    }
  }

  /** Every piece of `s` between separators, empty pieces included; there is
      always one more piece than there are separators. */
  function Pieces(s: string, sep: char): (r: seq<string>)
    ensures |r| >= 1
    ensures forall p :: p in r ==> sep !in p
    decreases |s|
  {
    if s == [] then [[]]
    else
      var rest := Pieces(s[1..], sep);
      if s[0] == sep then [[]] + rest
      else [[s[0]] + rest[0]] + rest[1..]
  }

  /** The pieces put back together with the separator between them. */
  function Join(ps: seq<string>, sep: char): string
    decreases |ps|
  {
    if ps == [] then []
    else if |ps| == 1 then ps[0]
    else ps[0] + [sep] + Join(ps[1..], sep)
  }

  /** Cutting at the separator and joining again gives back the string. */
  lemma {:induction false} JoinPieces(s: string, sep: char)
    ensures Join(Pieces(s, sep), sep) == s
    decreases |s|
  {
    if s != [] {
      var rest := Pieces(s[1..], sep);
      JoinPieces(s[1..], sep);
      if s[0] != sep {
        var r := Pieces(s, sep);
        assert r[1..] == rest[1..];
        if |rest| == 1 {
          assert s == [s[0]] + rest[0];
        } else {
          assert Join(rest, sep) == rest[0] + [sep] + Join(rest[1..], sep);
          assert s == [s[0]] + (rest[0] + [sep] + Join(rest[1..], sep));
        }
      }
    }
  }

  /** The pieces are the only separator-free sequence that joins to `s`:
      `Pieces` is the split, not merely one split. */
  lemma {:induction false} PiecesUnique(ps: seq<string>, s: string, sep: char)
    requires |ps| >= 1
    requires forall p :: p in ps ==> sep !in p
    requires Join(ps, sep) == s
    ensures ps == Pieces(s, sep)
    decreases |s|, |ps|
  {
    if |ps| == 1 {
      LonePiece(ps[0], sep);
    } else if ps[0] == [] {
      assert s == [sep] + Join(ps[1..], sep);
      assert s[1..] == Join(ps[1..], sep);
      PiecesUnique(ps[1..], s[1..], sep);
    } else {
      var qs := [ps[0][1..]] + ps[1..];
      assert ps[0] == [ps[0][0]] + ps[0][1..];
      assert ps[0][0] in ps[0];
      assert forall p :: p in qs ==> sep !in p by {
        forall p | p in qs ensures sep !in p {
          if p == ps[0][1..] {
            assert forall c :: c in p ==> c in ps[0];
          } else {
            assert p in ps;
          }
        }
      }
      assert qs[1..] == ps[1..];
      assert s == [ps[0][0]] + (ps[0][1..] + [sep] + Join(ps[1..], sep));
      assert s[1..] == Join(qs, sep);
      PiecesUnique(qs, s[1..], sep);
    }
  }

  /** A separator-free string is its own single piece. */
  lemma {:induction false} LonePiece(s: string, sep: char)
    requires sep !in s
    ensures Pieces(s, sep) == [s]
    decreases |s|
  {
    if s != [] {
      assert s[0] in s;
      assert forall c :: c in s[1..] ==> c in s;
      LonePiece(s[1..], sep);
      assert s == [s[0]] + s[1..];
    }
  }

  /** A list of pieces with its trailing empty pieces removed. */
  function DropTrailingEmpty(ps: seq<string>): (r: seq<string>)
    ensures |r| <= |ps| && r == ps[..|r|]
    ensures r == [] || r[|r| - 1] != []
    ensures forall k :: |r| <= k < |ps| ==> ps[k] == []
    decreases |ps|
  {
    if ps != [] && ps[|ps| - 1] == [] then DropTrailingEmpty(ps[..|ps| - 1]) else ps
  }

  /** `s.split(sep)` for a literal one-character separator, limit 0. */
  function Split(s: string, sep: char): (r: seq<string>)
    ensures forall p :: p in r ==> sep !in p
  {
    if sep !in s then [s] else DropTrailingEmpty(Pieces(s, sep))
  }

  /** Every character of a piece comes from the input. */
  lemma {:induction false} PiecesChars(s: string, sep: char, i: int, k: int)
    requires 0 <= i < |Pieces(s, sep)| && 0 <= k < |Pieces(s, sep)[i]|
    ensures Pieces(s, sep)[i][k] in s
    decreases |s|
  {
    var rest := Pieces(s[1..], sep);
    assert forall c :: c in s[1..] ==> c in s;
    if s[0] == sep {
      PiecesChars(s[1..], sep, i - 1, k);
    } else if i == 0 {
      if k > 0 {
        PiecesChars(s[1..], sep, 0, k - 1);
      }
    } else {
      PiecesChars(s[1..], sep, i, k);
    }
  }

  /** Every character of a split piece comes from the input. */
  lemma SplitCharsFromInput(s: string, sep: char, i: int)
    requires 0 <= i < |Split(s, sep)|
    ensures forall k :: 0 <= k < |Split(s, sep)[i]| ==> Split(s, sep)[i][k] in s
  {
    if sep in s {
      forall k | 0 <= k < |Split(s, sep)[i]| ensures Split(s, sep)[i][k] in s {
        PiecesChars(s, sep, i, k);
      }
    }
  }

  /** `n` empty pieces. */
  function Empties(n: nat): (r: seq<string>)
    ensures |r| == n && forall k :: 0 <= k < n ==> r[k] == []
  {
    seq(n, _ => [])
  }

  /** The split loses only empty trailing pieces: some number of empty pieces
      appended to it join back to the input. */
  lemma SplitRecovers(s: string, sep: char)
    ensures exists n :: Join(Split(s, sep) + Empties(n), sep) == s
  {
    var ps := Pieces(s, sep);
    JoinPieces(s, sep);
    if sep !in s {
      LonePiece(s, sep);
      assert Split(s, sep) + Empties(0) == ps;
    } else {
      var r := Split(s, sep);
      var n := |ps| - |r|;
      assert r + Empties(n) == ps;
    }
  }

  /** The empty string splits into one empty piece, not into nothing. */
  lemma SplitEmpty(sep: char)
    ensures Split([], sep) == [[]]
  {
  }

  /** A non-empty string made only of separators splits into no piece at all. */
  lemma {:induction false} SplitOnlySeparators(s: string, sep: char)
    requires s != []
    requires forall k :: 0 <= k < |s| ==> s[k] == sep
    ensures Split(s, sep) == []
  {
    assert s[0] in s;
    AllEmptyPieces(s, sep);
  }

  lemma {:induction false} AllEmptyPieces(s: string, sep: char)
    requires forall k :: 0 <= k < |s| ==> s[k] == sep
    ensures forall k :: 0 <= k < |Pieces(s, sep)| ==> Pieces(s, sep)[k] == []
    decreases |s|
  {
    if s != [] {
      AllEmptyPieces(s[1..], sep);
    }
  }

  /** A split that found a separator never ends with an empty piece. */
  lemma SplitLastNonEmpty(s: string, sep: char)
    requires sep in s
    ensures Split(s, sep) == [] || Split(s, sep)[|Split(s, sep)| - 1] != []
  {
  }
}
