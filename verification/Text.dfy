/** Options, results, and the string operations that several Cirrusync components share. */
module Text {
  datatype Option<+T> = None | Some(value: T)

  datatype Result<+T, +E> = Ok(value: T) | Err(error: E)

  /** Two characters are lower-cased alike exactly when they are equal or one letter in two cases. */
  lemma FoldsExactly(c: char, d: char)
    ensures LowerChar(c) == LowerChar(d) <==>
            || c == d
            || ('A' <= c <= 'Z' && d as int == c as int + 32)
            || ('A' <= d <= 'Z' && c as int == d as int + 32)
    ensures LowerChar(c) == c || 'A' <= c <= 'Z'
  {
  }

  /** ASCII lower-casing of one character; every other character is left alone. */
  function LowerChar(c: char): char {
    if 'A' <= c <= 'Z' then (c as int + 32) as char else c
  }

  function Lower(s: string): (r: string)
    ensures |r| == |s|
    ensures forall i :: 0 <= i < |s| ==> r[i] == LowerChar(s[i])
  {
    seq(|s|, i requires 0 <= i < |s| => LowerChar(s[i]))
  }

  lemma LowerIdempotent(s: string)
    ensures Lower(Lower(s)) == Lower(s)
  {
  }

  /** Equality that ignores ASCII case. */
  predicate SameText(a: string, b: string) {
    Lower(a) == Lower(b)
  }

  /** The Unicode `White_Space` property, which is what trimming removes. */
  predicate IsSpace(c: char) {
    || '\U{9}' <= c <= '\U{D}' || c == ' ' || c == '\U{85}' || c == '\U{A0}' || c == '\U{1680}'
    || '\U{2000}' <= c <= '\U{200A}' || c == '\U{2028}' || c == '\U{2029}' || c == '\U{202F}'
    || c == '\U{205F}' || c == '\U{3000}'
  }

  /** The 25 characters of that property in version 15 of the Unicode standard. */
  lemma WhiteSpaceExactly(c: char)
    ensures IsSpace(c) <==> c in {
              '\U{9}', '\U{A}', '\U{B}', '\U{C}', '\U{D}', '\U{20}', '\U{85}', '\U{A0}', '\U{1680}',
              '\U{2000}', '\U{2001}', '\U{2002}', '\U{2003}', '\U{2004}', '\U{2005}', '\U{2006}', '\U{2007}',
              '\U{2008}', '\U{2009}', '\U{200A}', '\U{2028}', '\U{2029}', '\U{202F}', '\U{205F}', '\U{3000}'}
  {
  }

  predicate IsDigit(c: char) {
    '0' <= c <= '9'
  }

  predicate AllDigits(s: string) {
    forall i :: 0 <= i < |s| ==> IsDigit(s[i])
  }

  function DigitValue(c: char): (d: nat)
    requires IsDigit(c)
    ensures d < 10
  {
    c as int - '0' as int
  }

  function DigitChar(d: nat): (c: char)
    requires d < 10
    ensures IsDigit(c) && DigitValue(c) == d
  {
    ('0' as int + d) as char
  }

  function TrimStart(s: string): (r: string)
    ensures r == "" || !IsSpace(r[0])
    ensures |r| <= |s|
  {
    if s == "" || !IsSpace(s[0]) then s else TrimStart(s[1..])
  }

  function TrimEnd(s: string): (r: string)
    ensures r == "" || !IsSpace(r[|r| - 1])
    ensures |r| <= |s| && forall i :: 0 <= i < |r| ==> r[i] == s[i]
  {
    if s == "" || !IsSpace(s[|s| - 1]) then s else TrimEnd(s[..|s| - 1])
  }

  function Trim(s: string): (r: string)
    ensures |r| <= |s|
    ensures r == "" || (!IsSpace(r[0]) && !IsSpace(r[|r| - 1]))
  {
    TrimEnd(TrimStart(s))
  }

  /** The text is all white space. */
  predicate AllSpace(s: string) {
    forall i :: 0 <= i < |s| ==> IsSpace(s[i])
  }

  lemma {:induction false} StartIsTrimmed(a: string, s: string)
    requires AllSpace(a) && (s == "" || !IsSpace(s[0]))
    ensures TrimStart(a + s) == s
  {
    if a == "" {
      assert a + s == s;
    } else {
      StartIsTrimmed(a[1..], s);
      assert (a + s)[1..] == a[1..] + s;
    }
  }

  lemma {:induction false} EndIsTrimmed(s: string, b: string)
    requires AllSpace(b) && (s == "" || !IsSpace(s[|s| - 1]))
    ensures TrimEnd(s + b) == s
  {
    if b == "" {
      assert s + b == s;
    } else {
      EndIsTrimmed(s, b[..|b| - 1]);
      assert (s + b)[..|s + b| - 1] == s + b[..|b| - 1];
    }
  }

  /** Trimming removes all white space at both ends, and nothing else. */
  lemma TrimExactly(a: string, s: string, b: string)
    requires AllSpace(a) && AllSpace(b)
    requires s == "" || (!IsSpace(s[0]) && !IsSpace(s[|s| - 1]))
    ensures Trim(a + s + b) == s
  {
    if s == "" {
      assert a + s + b == (a + b) + "";
      StartIsTrimmed(a + b, "");
    } else {
      assert a + s + b == a + (s + b);
      StartIsTrimmed(a, s + b);
      EndIsTrimmed(s, b);
    }
  }

  function TrimEndDots(s: string): (r: string)
    ensures r == "" || r[|r| - 1] != '.'
    ensures |r| <= |s| && forall i :: 0 <= i < |r| ==> r[i] == s[i]
  {
    if s == "" || s[|s| - 1] != '.' then s else TrimEndDots(s[..|s| - 1])
  }

  /** All dots at the end are removed, and nothing else. */
  lemma {:induction false} DotsAreTrimmed(s: string, dots: string)
    requires (forall i :: 0 <= i < |dots| ==> dots[i] == '.') && (s == "" || s[|s| - 1] != '.')
    ensures TrimEndDots(s + dots) == s
  {
    if dots == "" {
      assert s + dots == s;
    } else {
      DotsAreTrimmed(s, dots[..|dots| - 1]);
      assert (s + dots)[..|s + dots| - 1] == s + dots[..|dots| - 1];
    }
  }

  /** Pieces of `s` between consecutive dots; there is always at least one. */
  function Labels(s: string): (r: seq<string>)
    ensures |r| >= 1
  {
    if s == "" then [""]
    else
      var rest := Labels(s[1..]);
      if s[0] == '.' then [""] + rest else [[s[0]] + rest[0]] + rest[1..]
  }

  function Joined(parts: seq<string>): string
    requires |parts| >= 1
  {
    if |parts| == 1 then parts[0] else parts[0] + "." + Joined(parts[1..])
  }

  /** Splitting loses nothing, and no label contains a dot. */
  lemma {:induction false} LabelsRoundTrip(s: string)
    ensures Joined(Labels(s)) == s
    ensures forall i :: 0 <= i < |Labels(s)| ==> '.' !in Labels(s)[i]
  {
    if s != "" {
      var rest := Labels(s[1..]);
      LabelsRoundTrip(s[1..]);
      assert s == [s[0]] + s[1..];
      if s[0] == '.' {
        assert ([""] + rest)[1..] == rest;
      } else {
        assert ([[s[0]] + rest[0]] + rest[1..])[1..] == rest[1..];
      }
    }
  }

  /** Conversely, dot-free pieces are recovered from their joined text. */
  lemma {:induction false} JoinedRoundTrip(parts: seq<string>)
    requires |parts| >= 1
    requires forall i :: 0 <= i < |parts| ==> '.' !in parts[i]
    ensures Labels(Joined(parts)) == parts
    decreases |parts|, |parts[0]|
  {
    var s := Joined(parts);
    if parts[0] == "" {
      if |parts| > 1 {
        JoinedRoundTrip(parts[1..]);
        assert s[1..] == Joined(parts[1..]);
        assert parts == [""] + parts[1..];
      }
    } else {
      var shorter := [parts[0][1..]] + parts[1..];
      JoinedRoundTrip(shorter);
      assert shorter[1..] == parts[1..];
      assert s[1..] == Joined(shorter);
      assert s[0] == parts[0][0] && parts[0] == [s[0]] + parts[0][1..];
      assert parts == [[s[0]] + shorter[0]] + shorter[1..];
    }
  }

  /** A piece between dots: from `i` up to `j` there is no dot, and around it are dots or the ends. */
  predicate Segment(s: string, i: nat, j: nat) {
    && i <= j <= |s| && (forall k :: i <= k < j ==> s[k] != '.')
    && (i == 0 || s[i - 1] == '.') && (j == |s| || s[j] == '.')
  }

  /** The first label is the first segment, and every other is a segment further on. */
  lemma {:induction false} LabelIsSegment(s: string, k: nat) returns (i: nat, j: nat)
    requires k < |Labels(s)|
    ensures Segment(s, i, j) && Labels(s)[k] == s[i..j] && (i == 0 <==> k == 0)
  {
    if s == "" {
      i, j := 0, 0;
    } else {
      var rest := Labels(s[1..]);
      if s[0] == '.' {
        if k == 0 {
          i, j := 0, 0;
        } else {
          i, j := LabelIsSegment(s[1..], k - 1);
          ShiftedSegment(s, i, j);
          i, j := i + 1, j + 1;
        }
      } else {
        i, j := LabelIsSegment(s[1..], k);
        if k == 0 {
          LongerSegment(s, j);
          assert s[0..j + 1] == [s[0]] + s[1..][0..j];
          j := j + 1;
        } else {
          ShiftedSegment(s, i, j);
          i, j := i + 1, j + 1;
        }
      }
    }
  }

  /** And every segment is a label, the first of them the first label. */
  lemma {:induction false} SegmentIsLabel(s: string, i: nat, j: nat) returns (k: nat)
    requires Segment(s, i, j)
    ensures k < |Labels(s)| && Labels(s)[k] == s[i..j] && (i == 0 <==> k == 0)
  {
    if s == "" || (i == 0 && s[0] == '.') {
      k := 0;
    } else if i == 0 {
      ShorterSegment(s, j);
      k := SegmentIsLabel(s[1..], 0, j - 1);
      assert s[0..j] == [s[0]] + s[1..][0..j - 1];
    } else {
      UnshiftedSegment(s, i, j);
      k := SegmentIsLabel(s[1..], i - 1, j - 1);
      if s[0] == '.' {
        k := k + 1;
      }
    }
  }

  lemma ShorterSegment(s: string, j: nat)
    requires s != "" && s[0] != '.' && Segment(s, 0, j)
    ensures 0 < j && Segment(s[1..], 0, j - 1)
  {
    assert forall k :: 0 <= k < |s| - 1 ==> s[1..][k] == s[k + 1];
  }

  lemma UnshiftedSegment(s: string, i: nat, j: nat)
    requires s != "" && 0 < i && Segment(s, i, j)
    ensures Segment(s[1..], i - 1, j - 1) && s[1..][i - 1..j - 1] == s[i..j]
    ensures s[0] != '.' ==> i > 1
  {
    assert forall k :: 0 <= k < |s| - 1 ==> s[1..][k] == s[k + 1];
  }

  lemma ShiftedSegment(s: string, i: nat, j: nat)
    requires s != "" && Segment(s[1..], i, j) && (i > 0 || s[0] == '.')
    ensures Segment(s, i + 1, j + 1) && s[i + 1..j + 1] == s[1..][i..j]
  {
    assert forall k :: 0 <= k < |s| - 1 ==> s[1..][k] == s[k + 1];
  }

  lemma LongerSegment(s: string, j: nat)
    requires s != "" && s[0] != '.' && Segment(s[1..], 0, j)
    ensures Segment(s, 0, j + 1)
  {
    assert forall k :: 0 <= k < |s| - 1 ==> s[1..][k] == s[k + 1];
  }
}
