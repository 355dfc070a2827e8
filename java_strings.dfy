/** The parts of `java.lang.String` that the loader and the converter rely on:
    lower-casing (ASCII only), `trim` and `split` on a single literal character. */
module JavaStrings {

  /** `Character.toLowerCase`, restricted to the ASCII letters. */
  function LowerChar(c: char): (r: char)
    ensures 'A' <= c <= 'Z' ==> r as int == c as int + 32
    ensures !('A' <= c <= 'Z') ==> r == c
    ensures !('A' <= r <= 'Z')
  {
    if 'A' <= c <= 'Z' then (c as int + 32) as char else c
  }

  /** `String.toLowerCase` on ASCII text: every letter A-Z becomes a-z, nothing else changes. */
  function AsciiLower(s: string): (r: string)
    ensures |r| == |s|
    ensures forall i :: 0 <= i < |s| ==> r[i] == LowerChar(s[i])
  {
    if s == [] then [] else [LowerChar(s[0])] + AsciiLower(s[1..])
  }

  lemma {:induction false} AsciiLowerIdempotent(s: string)
    ensures AsciiLower(AsciiLower(s)) == AsciiLower(s)
  {
    var once := AsciiLower(s);
    var twice := AsciiLower(once);
    assert |twice| == |once|;
    forall i | 0 <= i < |once| ensures twice[i] == once[i] {
      assert once[i] == LowerChar(s[i]);
    }
  }

  /** Java's `trim` removes every leading character at or below U+0020. */
  function TrimStart(s: string): (r: string)
    ensures |r| <= |s| && r == s[|s| - |r|..]
    ensures forall i :: 0 <= i < |s| - |r| ==> s[i] <= ' '
    ensures |r| > 0 ==> r[0] > ' '
  {
    if |s| > 0 && s[0] <= ' ' then TrimStart(s[1..]) else s
  }

  /** ... and every trailing character at or below U+0020. */
  function TrimEnd(s: string): (r: string)
    ensures |r| <= |s| && r == s[..|r|]
    ensures forall i :: |r| <= i < |s| ==> s[i] <= ' '
    ensures |r| > 0 ==> r[|r| - 1] > ' '
  {
    if |s| > 0 && s[|s| - 1] <= ' ' then TrimEnd(s[..|s| - 1]) else s
  }

  /** `String.trim`. */
  function Trim(s: string): string {
    TrimEnd(TrimStart(s))
  }

  /** Every character is a control character or a space, so `trim` leaves nothing. */
  predicate IsBlank(s: string) {
    forall i :: 0 <= i < |s| ==> s[i] <= ' '
  }

  lemma TrimEmptyIffBlank(s: string)
    ensures |Trim(s)| == 0 <==> IsBlank(s)
  {
  }

  /** The pieces of `s` between the occurrences of `d`: one more piece than there are `d`s. */
  function Pieces(s: string, d: char): (r: seq<string>)
    ensures |r| >= 1
  {
    if s == [] then [[]]
    else
      var rest := Pieces(s[1..], d);
      if s[0] == d then [[]] + rest else [[s[0]] + rest[0]] + rest[1..]
  }

  /** The pieces glued back together with `d` between neighbours. */
  function Join(ps: seq<string>, d: char): string
    requires |ps| >= 1
  {
    if |ps| == 1 then ps[0] else ps[0] + [d] + Join(ps[1..], d)
  }

  /** Drops the empty strings at the end, as `split` with limit 0 does. */
  function DropTrailingEmpty(ps: seq<string>): (r: seq<string>)
    ensures |r| <= |ps| && r == ps[..|r|]
    ensures forall i :: |r| <= i < |ps| ==> ps[i] == []
    ensures |r| > 0 ==> r[|r| - 1] != []
  {
    if |ps| == 0 then []
    else if ps[|ps| - 1] == [] then DropTrailingEmpty(ps[..|ps| - 1])
    else ps
  }

  /** `s.split(d)` for a single character that is not a regular-expression metacharacter
      (Java's fast path, used for "\t" and ","). Without any `d` the result is `[s]`,
      even for the empty string; otherwise trailing empty pieces are removed. */
  function JavaSplit(s: string, d: char): seq<string> {
    if d !in s then [s] else DropTrailingEmpty(Pieces(s, d))
  }

  lemma {:induction false} JoinPieces(s: string, d: char)
    ensures Join(Pieces(s, d), d) == s
  {
    if s != [] {
      var rest := Pieces(s[1..], d);
      JoinPieces(s[1..], d);
      if s[0] == d {
        assert Pieces(s, d) == [[]] + rest;
        assert ([[]] + rest)[1..] == rest;
      } else {
        var ps := Pieces(s, d);
        assert ps == [[s[0]] + rest[0]] + rest[1..];
        if |rest| == 1 {
          assert Join(ps, d) == [s[0]] + rest[0];
        } else {
          assert ps[1..] == rest[1..];
          assert Join(rest, d) == rest[0] + [d] + Join(rest[1..], d);
          assert Join(ps, d) == [s[0]] + rest[0] + [d] + Join(rest[1..], d);
        }
      }
    }
  }

  lemma {:induction false} PiecesLackDelimiter(s: string, d: char)
    ensures forall i :: 0 <= i < |Pieces(s, d)| ==> d !in Pieces(s, d)[i]
  {
    if s != [] {
      PiecesLackDelimiter(s[1..], d);
    }
  }

  lemma {:induction false} PiecesAllEmptyIff(s: string, d: char)
    ensures (forall i :: 0 <= i < |Pieces(s, d)| ==> Pieces(s, d)[i] == []) <==>
            (forall i :: 0 <= i < |s| ==> s[i] == d)
  {
    if s != [] {
      PiecesAllEmptyIff(s[1..], d);
      var rest := Pieces(s[1..], d);
      if s[0] == d {
        var ps := Pieces(s, d);
        assert ps == [[]] + rest;
        assert forall i :: 0 <= i < |rest| ==> ps[i + 1] == rest[i];
        if forall i :: 0 <= i < |s| ==> s[i] == d {
          assert forall i :: 0 <= i < |s[1..]| ==> s[1..][i] == s[i + 1];
          forall i | 0 <= i < |ps| ensures ps[i] == [] {
            if i > 0 { assert ps[i] == rest[i - 1]; }
          }
        }
        if forall i :: 0 <= i < |ps| ==> ps[i] == [] {
          assert forall i :: 0 <= i < |rest| ==> rest[i] == [];
          forall i | 0 <= i < |s| ensures s[i] == d {
            if i > 0 { assert s[i] == s[1..][i - 1]; }
          }
        }
      } else {
        assert Pieces(s, d)[0] == [s[0]] + rest[0];
      }
    }
  }

  /** `split` yields no field at all exactly when `s` is non-empty and made only of `d`s. */
  lemma SplitEmptyIff(s: string, d: char)
    ensures |JavaSplit(s, d)| == 0 <==> |s| > 0 && forall i :: 0 <= i < |s| ==> s[i] == d
  {
    PiecesAllEmptyIff(s, d);
    if d in s {
      var ps := Pieces(s, d);
      var r := DropTrailingEmpty(ps);
      if |r| == 0 {
        assert forall i :: 0 <= i < |ps| ==> ps[i] == [];
      } else {
        assert r[|r| - 1] == ps[|r| - 1];
      }
    }
  }

  /** What `split` returns determines the input up to the trailing delimiters it dropped:
      the kept fields are the leading pieces, every dropped piece is empty and no field holds `d`. */
  lemma SplitFields(s: string, d: char)
    ensures d !in s ==> JavaSplit(s, d) == [s]
    ensures d in s ==> JavaSplit(s, d) == Pieces(s, d)[..|JavaSplit(s, d)|]
    ensures d in s ==> forall i :: |JavaSplit(s, d)| <= i < |Pieces(s, d)| ==> Pieces(s, d)[i] == []
    ensures forall i :: 0 <= i < |JavaSplit(s, d)| ==> d !in JavaSplit(s, d)[i]
    ensures Join(Pieces(s, d), d) == s
  {
    PiecesLackDelimiter(s, d);
    JoinPieces(s, d);
  }

  /** Text without the delimiter is a single piece... */
  lemma {:induction false} PiecesWithout(s: string, d: char)
    requires d !in s
    ensures Pieces(s, d) == [s]
  {
    if s != [] {
      PiecesWithout(s[1..], d);
      assert [s[0]] + s[1..] == s;
    }
  }

  /** ... and a delimiter after delimiter-free text `a` closes the piece `a`. */
  lemma {:induction false} PiecesAfter(a: string, b: string, d: char)
    requires d !in a
    ensures Pieces(a + [d] + b, d) == [a] + Pieces(b, d)
  {
    var s := a + [d] + b;
    if a == [] {
      assert s == [d] + b;
      assert s[1..] == b;
    } else {
      assert s[0] == a[0];
      assert s[1..] == a[1..] + [d] + b;
      PiecesAfter(a[1..], b, d);
      assert [a[0]] + a[1..] == a;
    }
  }
}
