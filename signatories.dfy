/**
 * The signatory table of the analysis panel: `parseContent`, nested in
 * `signatoryTable`, turns the model's free-text answer into rows of
 * (name, position), and the table numbers the rows from 1.
 *
 * The regex split `line.split(/-(.+)/)` is modelled by the loop of
 * ECMAScript's RegExp.prototype[@@split]: the pattern matches a hyphen
 * followed by a greedy run of characters that `.` accepts (everything but a
 * line terminator), and the split yields the text before the match, the
 * captured run, and whatever follows, split again.
 */
module Signatories {
  import opened Wrappers
  import opened JsStrings

  /** One parsed line. `position` is `None` when the source leaves it `undefined`. */
  datatype Signatory = Signatory(name: string, position: Option<string>)

  // ---------------------------------------------------------------- line.split(/-(.+)/)

  /** End of the greedy `.+` run starting at `k`: the first line terminator at or after `k`, or the end. */
  function RunEnd(s: string, k: nat): (e: nat)
    requires k <= |s|
    ensures k <= e <= |s|
    ensures forall i :: k <= i < e ==> !IsLineTerminator(s[i])
    ensures e < |s| ==> IsLineTerminator(s[e])
    decreases |s| - k
  {
    if k == |s| || IsLineTerminator(s[k]) then k else RunEnd(s, k + 1)
  }

  /** `/-(.+)/` matches at `q`: a hyphen followed by at least one character that `.` accepts. */
  predicate MatchesAt(s: string, q: nat) {
    q + 1 < |s| && s[q] == '-' && !IsLineTerminator(s[q + 1])
  }

  /**
   * The split loop: `p` is where the current piece starts, `q` where a match
   * is tried next. A match at `q` ending at `e` emits the piece `s[p..q]` and
   * the capture `s[q+1..e]`, and the search resumes at `e`.
   */
  function SplitFrom(s: string, p: nat, q: nat): (r: seq<string>)
    requires p <= q <= |s|
    ensures |r| % 2 == 1
    decreases |s| - q
  {
    if q == |s| then [s[p..]]
    else if MatchesAt(s, q) then
      var e := RunEnd(s, q + 1);
      [s[p..q], s[q + 1..e]] + SplitFrom(s, e, e)
    else SplitFrom(s, p, q + 1)
  }

  /** `line.split(/-(.+)/)`. */
  function SplitAtHyphen(line: string): seq<string> {
    SplitFrom(line, 0, 0)
  }

  /** Puts back the hyphen the split consumed in front of every capture. */
  function Rejoin(pieces: seq<string>): string
    decreases |pieces|
  {
    if |pieces| < 2 then (if pieces == [] then "" else pieces[0])
    else pieces[0] + "-" + pieces[1] + Rejoin(pieces[2..])
  }

  /** The split loses nothing but the matched hyphens. */
  lemma {:induction false} RejoinSplitFrom(s: string, p: nat, q: nat)
    requires p <= q <= |s|
    ensures Rejoin(SplitFrom(s, p, q)) == s[p..]
    decreases |s| - q
  {
    if q < |s| {
      if MatchesAt(s, q) {
        var e := RunEnd(s, q + 1);
        assert s[p..] == s[p..q] + "-" + s[q + 1..e] + s[e..];
        var rest := SplitFrom(s, e, e);
        var pieces := [s[p..q], s[q + 1..e]] + rest;
        assert pieces[2..] == rest;
        assert Rejoin(pieces) == s[p..q] + "-" + s[q + 1..e] + Rejoin(rest);
        RejoinSplitFrom(s, e, e);
      } else {
        RejoinSplitFrom(s, p, q + 1);
      }
    }
  }

  /** The pieces of `line.split(/-(.+)/)`, put back together, are the line. */
  lemma RejoinSplit(line: string)
    ensures Rejoin(SplitAtHyphen(line)) == line
  {
    RejoinSplitFrom(line, 0, 0);
  }

  // ---------------------------------------------------------------- .map(trim).filter(Boolean)

  /** `.map(part => part?.trim()).filter(Boolean)`: the trimmed pieces that are not empty, in order. */
  function NonBlankTrimmed(parts: seq<string>): (r: seq<string>)
    ensures |r| <= |parts|
    ensures forall i :: 0 <= i < |r| ==> r[i] != []
    decreases |parts|
  {
    if parts == [] then []
    else
      var t := Trim(parts[0]);
      (if t == [] then [] else [t]) + NonBlankTrimmed(parts[1..])
  }

  // ---------------------------------------------------------------- name.replace(/^\d+\.\s*/, "")

  /** Number of ASCII digits `s` begins with. */
  function LeadingDigits(s: string): (n: nat)
    ensures n <= |s| && AllDigits(s[..n])
    ensures n < |s| ==> !IsDigit(s[n])
    decreases |s|
  {
    if s != [] && IsDigit(s[0]) then
      var n := 1 + LeadingDigits(s[1..]);
      assert s[..n] == [s[0]] + s[1..][..n - 1];
      n
    else 0
  }

  /** `s` starts with a list number: one or more digits and a full stop. */
  predicate HasListNumber(s: string) {
    var d := LeadingDigits(s);
    0 < d < |s| && s[d] == '.'
  }

  /**
   * `name.replace(/^\d+\.\s*\/, "")`: removes one leading "digits, full stop,
   * white space" prefix. `\d+` cannot give back digits to find the full stop
   * elsewhere, so the prefix exists exactly when the leading digits are
   * followed by '.'; `\s*` then takes every white-space character after it.
   */
  function StripListNumber(name: string): (r: string)
    ensures |r| <= |name| && r == name[|name| - |r|..]
    ensures !HasListNumber(name) ==> r == name
    ensures HasListNumber(name) ==> |r| < |name| && (r == [] || !IsSpace(r[0]))
  {
    var d := LeadingDigits(name);
    if 0 < d < |name| && name[d] == '.' then TrimStart(name[d + 1..]) else name
  }

  lemma {:induction false} LeadingDigitsOfNumber(digits: string, rest: string)
    requires AllDigits(digits)
    requires rest == [] || !IsDigit(rest[0])
    ensures LeadingDigits(digits + rest) == |digits|
    decreases |digits|
  {
    if digits != [] {
      assert (digits + rest)[1..] == digits[1..] + rest;
      LeadingDigitsOfNumber(digits[1..], rest);
    } else {
      assert digits + rest == rest;
    }
  }

  lemma {:induction false} TrimStartOfSpaces(spaces: string, rest: string)
    requires AllSpace(spaces)
    requires rest == [] || !IsSpace(rest[0])
    ensures TrimStart(spaces + rest) == rest
    decreases |spaces|
  {
    if spaces != [] {
      assert (spaces + rest)[1..] == spaces[1..] + rest;
      TrimStartOfSpaces(spaces[1..], rest);
    } else {
      assert spaces + rest == rest;
    }
  }

  /**
   * The list number `digits.` and the white space after it are removed, and
   * nothing more: `rest` comes out whole, even when it starts with another
   * list number.
   */
  lemma StripOneListNumber(digits: string, spaces: string, rest: string)
    requires digits != [] && AllDigits(digits)
    requires AllSpace(spaces)
    requires rest == [] || !IsSpace(rest[0])
    ensures StripListNumber(digits + "." + spaces + rest) == rest
  {
    var body := spaces + rest;
    var tail := "." + body;
    var name := digits + tail;
    var d := |digits|;
    assert digits + "." + spaces + rest == name;
    assert LeadingDigits(name) == d by {
      assert tail[0] == '.';
      LeadingDigitsOfNumber(digits, tail);
    }
    assert d < |name| && name[d] == '.' && name[d + 1..] == body by {
      assert name[d..] == tail;
      assert tail[1..] == body;
    }
    assert StripListNumber(name) == TrimStart(body);
    TrimStartOfSpaces(spaces, rest);
  }

  /** "1. 2. Ali" loses only its first list number. */
  lemma OnlyFirstListNumberStripped()
    ensures StripListNumber("1. 2. Ali") == "2. Ali"
  {
    assert "1. 2. Ali" == "1" + "." + " " + "2. Ali";
    StripOneListNumber("1", " ", "2. Ali");
  }

  // ---------------------------------------------------------------- one line

  /**
   * The `.map` callback for one line: destructure the first two non-blank
   * pieces as `[name, fullPosition]`. When there is none, `name` is
   * `undefined` and `name.replace` throws: `None`.
   */
  function ParseLine(line: string): Option<Signatory> {
    NamePosition(NonBlankTrimmed(SplitAtHyphen(line)))
  }

  /** `const [name, fullPosition] = parts` and the returned object; no `name` means `name.replace` throws. */
  function NamePosition(parts: seq<string>): Option<Signatory> {
    if parts == [] then None
    else Some(Signatory(StripListNumber(parts[0]), if |parts| >= 2 then Some(parts[1]) else None))
  }

  predicate NoLineTerminator(s: string) {
    forall i :: 0 <= i < |s| ==> !IsLineTerminator(s[i])
  }

  /** The first hyphen at or after `from` that has at least one more character after it. */
  function SplitPoint(s: string, from: nat): (r: Option<nat>)
    requires from <= |s|
    ensures r.Some? ==> from <= r.value && r.value + 1 < |s| && s[r.value] == '-'
    ensures r.Some? ==> forall j :: from <= j < r.value ==> s[j] != '-'
    ensures r.None? ==> forall j :: from <= j < |s| - 1 ==> s[j] != '-'
    decreases |s| - from
  {
    if from + 1 >= |s| then None
    else if s[from] == '-' then Some(from)
    else SplitPoint(s, from + 1)
  }

  lemma {:induction false} SplitFromSkips(s: string, p: nat, q: nat, q': nat)
    requires p <= q <= q' <= |s|
    requires forall j :: q <= j < q' ==> !MatchesAt(s, j)
    ensures SplitFrom(s, p, q) == SplitFrom(s, p, q')
    decreases q' - q
  {
    if q < q' {
      SplitFromSkips(s, p, q + 1, q');
    }
  }

  /**
   * On a line without line terminators the split happens at the first hyphen
   * that has a character after it: the pieces are the text before it, the
   * whole remainder (hyphens included) and an empty tail. Without such a
   * hyphen the line comes back whole.
   */
  lemma SplitAtFirstHyphen(line: string)
    requires NoLineTerminator(line)
    ensures SplitPoint(line, 0).Some? ==>
              var q := SplitPoint(line, 0).value;
              SplitAtHyphen(line) == [line[..q], line[q + 1..], ""]
    ensures SplitPoint(line, 0).None? ==> SplitAtHyphen(line) == [line]
  {
    match SplitPoint(line, 0)
    case Some(q) =>
      SplitFromSkips(line, 0, 0, q);
      assert MatchesAt(line, q);
      assert RunEnd(line, q + 1) == |line|;
      assert SplitFrom(line, |line|, |line|) == [""];
      assert line[q + 1..|line|] == line[q + 1..];
      assert SplitFrom(line, 0, q) == [line[..q], line[q + 1..]] + SplitFrom(line, |line|, |line|);
    case None =>
      SplitFromSkips(line, 0, 0, |line|);
  }

  /**
   * A line without line terminators that has a split point `q`: `before` and
   * `after` are the trimmed texts on either side of it, and `filter(Boolean)`
   * decides which of them become name and position.
   */
  lemma ParseLineAtSplitPoint(line: string, q: nat)
    requires NoLineTerminator(line)
    requires SplitPoint(line, 0) == Some(q)
    ensures var before, after := Trim(line[..q]), Trim(line[q + 1..]);
            ParseLine(line) ==
              if before != [] && after != [] then Some(Signatory(StripListNumber(before), Some(after)))
              else if before != [] then Some(Signatory(StripListNumber(before), None))
              else if after != [] then Some(Signatory(StripListNumber(after), None))
              else None
  {
    SplitAtFirstHyphen(line);
    EmptyTrim();
    ParseLineOfThreePieces(line, line[..q], line[q + 1..], "");
    NamePositionOfTwo(Trim(line[..q]), Trim(line[q + 1..]));
  }

  /** A line that splits into `[a, b, c]` with `c` blank parses from the non-blank ones of `a` and `b`, trimmed. */
  lemma ParseLineOfThreePieces(line: string, a: string, b: string, c: string)
    requires SplitAtHyphen(line) == [a, b, c] && Trim(c) == []
    ensures ParseLine(line) ==
              NamePosition((if Trim(a) == [] then [] else [Trim(a)]) + (if Trim(b) == [] then [] else [Trim(b)]))
  {
    NonBlankTrimmedThree(a, b, c);
  }

  /** A line the split leaves whole parses to its trimmed text as the name, or to nothing when it is blank. */
  lemma ParseLineOfOnePiece(line: string)
    requires SplitAtHyphen(line) == [line]
    ensures ParseLine(line) == if Trim(line) == [] then None
                               else Some(Signatory(StripListNumber(Trim(line)), None))
  {
    assert NonBlankTrimmed([line]) == (if Trim(line) == [] then [] else [Trim(line)]) by {
      assert [line][1..] == [];
    }
  }

  lemma NamePositionOfTwo(before: string, after: string)
    ensures NamePosition((if before == [] then [] else [before]) + (if after == [] then [] else [after])) ==
              if before != [] && after != [] then Some(Signatory(StripListNumber(before), Some(after)))
              else if before != [] then Some(Signatory(StripListNumber(before), None))
              else if after != [] then Some(Signatory(StripListNumber(after), None))
              else None
  {
    var parts := (if before == [] then [] else [before]) + (if after == [] then [] else [after]);
    if before != [] && after != [] {
      assert parts == [before, after];
    } else if before != [] {
      assert parts == [before];
    } else if after != [] {
      assert parts == [after];
    } else {
      assert parts == [];
    }
  }

  /** A line without line terminators and without a split point: the trimmed line is the name, with no position. */
  lemma ParseLineUnsplit(line: string)
    requires NoLineTerminator(line)
    requires SplitPoint(line, 0) == None
    ensures ParseLine(line) == if Trim(line) == [] then None
                               else Some(Signatory(StripListNumber(Trim(line)), None))
  {
    SplitAtFirstHyphen(line);
    ParseLineOfOnePiece(line);
  }

  lemma EmptyTrim()
    ensures Trim("") == ""
  {
  }

  /** `.map(trim).filter(Boolean)` on a split into three pieces whose last one is blank. */
  lemma NonBlankTrimmedThree(a: string, b: string, c: string)
    requires Trim(c) == []
    ensures NonBlankTrimmed([a, b, c]) ==
              (if Trim(a) == [] then [] else [Trim(a)]) + (if Trim(b) == [] then [] else [Trim(b)])
  {
    var p := [a, b, c];
    var p1 := p[1..];
    var p2 := p1[1..];
    assert p[0] == a && p1[0] == b && p2[0] == c && p2[1..] == [];
    assert NonBlankTrimmed(p2) == [];
    assert NonBlankTrimmed(p1) == (if Trim(b) == [] then [] else [Trim(b)]);
  }

  /**
   * A line whose only hyphen is its last character is not split: the whole
   * trimmed line is the name, and there is no position.
   */
  lemma TrailingHyphenIsKept(line: string)
    requires NoLineTerminator(line)
    requires |line| > 0 && line[|line| - 1] == '-'
    requires forall j :: 0 <= j < |line| - 1 ==> line[j] != '-'
    ensures ParseLine(line) == Some(Signatory(StripListNumber(Trim(line)), None))
  {
    assert SplitPoint(line, 0).None?;
    assert Trim(line) != [] by { TrimNonEmpty(line, |line| - 1); }
    ParseLineUnsplit(line);
  }

  /**
   * A line whose text before the split point is blank: `filter(Boolean)`
   * drops the empty name, so the remainder becomes the name and there is no
   * position.
   */
  lemma BlankNameTakesRemainder(line: string, q: nat)
    requires NoLineTerminator(line)
    requires q + 1 < |line| && line[q] == '-' && AllSpace(line[..q])
    requires !AllSpace(line[q + 1..])
    ensures ParseLine(line) == Some(Signatory(StripListNumber(Trim(line[q + 1..])), None))
  {
    assert SplitPoint(line, 0) == Some(q);
    ParseLineAtSplitPoint(line, q);
    TrimEmptyIff(line[..q]);
    TrimEmptyIff(line[q + 1..]);
  }

  /** A line without line terminators fails exactly when nothing but white space surrounds its split point. */
  lemma ParseLineFailsIff(line: string)
    requires NoLineTerminator(line) && '-' in line
    ensures ParseLine(line).None? <==>
              SplitPoint(line, 0).Some? &&
              AllSpace(line[..SplitPoint(line, 0).value]) &&
              AllSpace(line[SplitPoint(line, 0).value + 1..])
  {
    match SplitPoint(line, 0)
    case Some(q) => ParseLineFailsAtSplitPoint(line, q);
    case None => ParseLineUnsplitSucceeds(line);
  }

  /** With a split point, the line has no name exactly when both sides of it are blank. */
  lemma ParseLineFailsAtSplitPoint(line: string, q: nat)
    requires NoLineTerminator(line) && SplitPoint(line, 0) == Some(q)
    ensures ParseLine(line).None? <==> AllSpace(line[..q]) && AllSpace(line[q + 1..])
  {
    ParseLineAtSplitPoint(line, q);
    TrimEmptyIff(line[..q]);
    TrimEmptyIff(line[q + 1..]);
  }

  /** Without a split point, a line holding a hyphen always yields a name. */
  lemma ParseLineUnsplitSucceeds(line: string)
    requires NoLineTerminator(line) && '-' in line && SplitPoint(line, 0).None?
    ensures ParseLine(line).Some?
  {
    assert Trim(line) != [] by {
      var i :| 0 <= i < |line| && line[i] == '-';
      TrimNonEmpty(line, i);
    }
    ParseLineUnsplit(line);
  }

  lemma {:induction false} TrimDropsTrailingSpace(s: string, c: char)
    requires IsSpace(c)
    ensures Trim(s + [c]) == Trim(s)
  {
    assert (s + [c])[..|s + [c]| - 1] == s;
    var t := TrimStart(s + [c]);
    if AllSpace(s) {
      TrimEmptyIff(s);
      TrimEmptyIff(s + [c]);
    } else {
      TrimStartAppend(s, [c]);
      assert t == TrimStart(s) + [c];
      assert t[..|t| - 1] == TrimStart(s);
    }
  }

  lemma {:induction false} TrimStartAppend(s: string, tail: string)
    requires !AllSpace(s)
    ensures TrimStart(s + tail) == TrimStart(s) + tail
    decreases |s|
  {
    assert s != [];
    if IsSpace(s[0]) {
      assert (s + tail)[1..] == s[1..] + tail;
      assert !AllSpace(s[1..]) by {
        var i :| 0 <= i < |s| && !IsSpace(s[i]);
        assert s[1..][i - 1] == s[i];
      }
      TrimStartAppend(s[1..], tail);
    }
  }

  /** How `line + "\r"` splits, for a line without line terminators. */
  lemma SplitWithCarriageReturn(line: string)
    requires NoLineTerminator(line)
    ensures SplitPoint(line, 0).Some? ==>
              var q := SplitPoint(line, 0).value;
              SplitAtHyphen(line + "\r") == [line[..q], line[q + 1..], "\r"]
    ensures SplitPoint(line, 0).None? ==> SplitAtHyphen(line + "\r") == [line + "\r"]
  {
    if SplitPoint(line, 0).Some? {
      SplitWithCarriageReturnAt(line, SplitPoint(line, 0).value);
    } else {
      SplitWithCarriageReturnWhole(line);
    }
  }

  lemma SplitWithCarriageReturnAt(line: string, q: nat)
    requires NoLineTerminator(line) && SplitPoint(line, 0) == Some(q)
    ensures SplitAtHyphen(line + "\r") == [line[..q], line[q + 1..], "\r"]
  {
    var s := line + "\r";
    assert s[..q] == line[..q] && s[q + 1..|line|] == line[q + 1..];
    assert forall j :: 0 <= j < q ==> !MatchesAt(s, j) by {
      assert forall j :: 0 <= j < q ==> s[j] == line[j];
    }
    SplitFromSkips(s, 0, 0, q);
    assert MatchesAt(s, q);
    assert RunEnd(s, q + 1) == |line| by {
      assert s[|line|] == '\r';
      assert forall i :: 0 <= i < |line| ==> s[i] == line[i];
    }
    assert SplitFrom(s, |line|, |line|) == ["\r"] by {
      assert !MatchesAt(s, |line|);
      SplitFromSkips(s, |line|, |line|, |s|);
      assert s[|line|..] == "\r";
    }
    assert SplitFrom(s, 0, q) == [s[..q], s[q + 1..|line|]] + SplitFrom(s, |line|, |line|);
  }

  lemma SplitWithCarriageReturnWhole(line: string)
    requires NoLineTerminator(line) && SplitPoint(line, 0).None?
    ensures SplitAtHyphen(line + "\r") == [line + "\r"]
  {
    var s := line + "\r";
    assert forall j :: 0 <= j < |s| ==> !MatchesAt(s, j);
    SplitFromSkips(s, 0, 0, |s|);
    assert s[0..] == s;
  }

  /** A Windows line ending ("\r" left over by `split("\n")`) does not change how a line parses. */
  lemma CarriageReturnIgnored(line: string)
    requires NoLineTerminator(line)
    ensures ParseLine(line + "\r") == ParseLine(line)
  {
    if SplitPoint(line, 0).Some? {
      CarriageReturnAtSplitPoint(line, SplitPoint(line, 0).value);
    } else {
      CarriageReturnUnsplit(line);
    }
  }

  /** With a split point, the "\r" ends up in the blank third piece, which `filter(Boolean)` drops. */
  lemma CarriageReturnAtSplitPoint(line: string, q: nat)
    requires NoLineTerminator(line) && SplitPoint(line, 0) == Some(q)
    ensures ParseLine(line + "\r") == ParseLine(line)
  {
    var a, b := line[..q], line[q + 1..];
    assert SplitAtHyphen(line + "\r") == [a, b, "\r"] by { SplitWithCarriageReturnAt(line, q); }
    assert SplitAtHyphen(line) == [a, b, ""] by { SplitAtFirstHyphen(line); }
    assert Trim("\r") == [] by { TrimEmptyIff("\r"); }
    EmptyTrim();
    ParseLineOfThreePieces(line + "\r", a, b, "\r");
    ParseLineOfThreePieces(line, a, b, "");
  }

  /** Without a split point, the "\r" stays at the end of the one piece, and `trim` removes it. */
  lemma CarriageReturnUnsplit(line: string)
    requires NoLineTerminator(line) && SplitPoint(line, 0).None?
    ensures ParseLine(line + "\r") == ParseLine(line)
  {
    var s := line + "\r";
    assert SplitAtHyphen(s) == [s] by { SplitWithCarriageReturnWhole(line); }
    assert SplitAtHyphen(line) == [line] by { SplitAtFirstHyphen(line); }
    assert Trim(s) == Trim(line) by { TrimDropsTrailingSpace(line, '\r'); }
    ParseLineOfOnePiece(s);
    ParseLineOfOnePiece(line);
  }

  // ---------------------------------------------------------------- the whole text

  /** The filter `line.trim() && line.includes("-")`. */
  predicate IsCandidate(line: string) {
    Trim(line) != [] && '-' in line
  }

  /** The trim test is redundant: a line with a hyphen is never blank. */
  lemma CandidateIffHyphen(line: string)
    ensures IsCandidate(line) <==> '-' in line
  {
    if '-' in line {
      var i :| 0 <= i < |line| && line[i] == '-';
      TrimNonEmpty(line, i);
    }
  }

  /** `xs.filter(keep)`: the elements `keep` accepts, in input order. */
  function Filter<A>(keep: A -> bool, xs: seq<A>): (r: seq<A>)
    ensures |r| <= |xs|
    decreases |xs|
  {
    if xs == [] then []
    else (if keep(xs[0]) then [xs[0]] else []) + Filter(keep, xs[1..])
  }

  lemma {:induction false} FilterAppend<A>(keep: A -> bool, a: seq<A>, b: seq<A>)
    ensures Filter(keep, a + b) == Filter(keep, a) + Filter(keep, b)
    decreases |a|
  {
    if a == [] {
      assert a + b == b;
    } else {
      var head, rest := a[0], a[1..];
      assert a + b == [head] + (rest + b);
      var kept := if keep(head) then [head] else [];
      FilterAppend(keep, rest, b);
      calc {
        Filter(keep, a + b);
        kept + Filter(keep, rest + b);
        kept + (Filter(keep, rest) + Filter(keep, b));
        (kept + Filter(keep, rest)) + Filter(keep, b);
        Filter(keep, a) + Filter(keep, b);
      }
    }
  }

  lemma {:induction false} FilterMembers<A>(keep: A -> bool, xs: seq<A>, x: A)
    ensures x in Filter(keep, xs) <==> x in xs && keep(x)
    decreases |xs|
  {
    if xs != [] {
      FilterMembers(keep, xs[1..], x);
      assert xs == [xs[0]] + xs[1..];
    }
  }

  /** The lines the filter keeps, in input order. */
  function CandidateLines(lines: seq<string>): (r: seq<string>)
    ensures |r| <= |lines|
  {
    Filter(IsCandidate, lines)
  }

  /** The filter commutes with concatenation, so kept lines keep their relative order. */
  lemma CandidateLinesAppend(a: seq<string>, b: seq<string>)
    ensures CandidateLines(a + b) == CandidateLines(a) + CandidateLines(b)
  {
    FilterAppend(IsCandidate, a, b);
  }

  /** A line is kept exactly when it contains a hyphen. */
  lemma CandidateLinesMembers(lines: seq<string>, x: string)
    ensures x in CandidateLines(lines) <==> x in lines && '-' in x
  {
    FilterMembers(IsCandidate, lines, x);
    CandidateIffHyphen(x);
  }

  /** `xs.map(f)` where `f` may throw: every element has a result, in order, or there is none at all. */
  function MapAll<A, B>(f: A -> Option<B>, xs: seq<A>): (r: Option<seq<B>>)
    ensures r.Some? <==> forall i :: 0 <= i < |xs| ==> f(xs[i]).Some?
    ensures r.Some? ==> |r.value| == |xs|
    ensures r.Some? ==> forall i :: 0 <= i < |xs| ==> f(xs[i]) == Some(r.value[i])
    decreases |xs|
  {
    if xs == [] then Some([])
    else match (f(xs[0]), MapAll(f, xs[1..]))
      case (Some(y), Some(ys)) => Some([y] + ys)
      case _ => None
  }

  /** One element without a result makes the whole `map` throw. */
  lemma MapAllNoneAt<A, B>(f: A -> Option<B>, xs: seq<A>, x: A)
    requires x in xs && f(x).None?
    ensures MapAll(f, xs).None?
  {
    var i :| 0 <= i < |xs| && xs[i] == x;
    assert f(xs[i]).None?;
  }

  /** The results `f` has, in order; the elements without one are skipped. */
  function MapSome<A, B>(f: A -> Option<B>, xs: seq<A>): (r: seq<B>)
    ensures |r| <= |xs|
    decreases |xs|
  {
    if xs == [] then []
    else (match f(xs[0]) case Some(y) => [y] case None => []) + MapSome(f, xs[1..])
  }

  /** How many elements `f` has no result for. */
  function CountNone<A, B>(f: A -> Option<B>, xs: seq<A>): nat
    decreases |xs|
  {
    if xs == [] then 0 else (if f(xs[0]).None? then 1 else 0) + CountNone(f, xs[1..])
  }

  /** Where every element has a result, skipping changes nothing. */
  lemma {:induction false} MapSomeAgrees<A, B>(f: A -> Option<B>, xs: seq<A>)
    ensures MapAll(f, xs).Some? ==> MapSome(f, xs) == MapAll(f, xs).value
    decreases |xs|
  {
    if xs != [] {
      MapSomeAgrees(f, xs[1..]);
    }
  }

  /** Exactly the elements without a result are dropped. */
  lemma {:induction false} MapSomeLength<A, B>(f: A -> Option<B>, xs: seq<A>)
    ensures |MapSome(f, xs)| == |xs| - CountNone(f, xs)
    decreases |xs|
  {
    if xs != [] {
      MapSomeLength(f, xs[1..]);
    }
  }

  /** Every result kept comes from some element. */
  lemma {:induction false} MapSomeFrom<A, B>(f: A -> Option<B>, xs: seq<A>, y: B)
    requires y in MapSome(f, xs)
    ensures exists x :: x in xs && f(x) == Some(y)
    decreases |xs|
  {
    var head := match f(xs[0]) case Some(z) => [z] case None => [];
    assert MapSome(f, xs) == head + MapSome(f, xs[1..]);
    if y in head {
      assert xs[0] in xs;
    } else {
      MapSomeFrom(f, xs[1..], y);
      var x :| x in xs[1..] && f(x) == Some(y);
      assert x in xs;
    }
  }

  /**
   * Skipping the elements without a result is the throwing `map` over the
   * elements that have one: the results come out in element order.
   */
  lemma {:induction false} MapSomeIsFilterThenMap<A, B>(f: A -> Option<B>, has: A -> bool, xs: seq<A>)
    requires forall x :: has(x) <==> f(x).Some?
    ensures MapAll(f, Filter(has, xs)) == Some(MapSome(f, xs))
    decreases |xs|
  {
    if xs != [] {
      var head, rest := xs[0], xs[1..];
      MapSomeIsFilterThenMap(f, has, rest);
      if has(head) {
        var kept := [head] + Filter(has, rest);
        assert Filter(has, xs) == kept;
        assert kept[0] == head && kept[1..] == Filter(has, rest);
      } else {
        assert Filter(has, xs) == [] + Filter(has, rest) == Filter(has, rest);
        assert MapSome(f, xs) == [] + MapSome(f, rest) == MapSome(f, rest);
      }
    }
  }

  /** An element without a result is counted. */
  lemma {:induction false} CountNonePositive<A, B>(f: A -> Option<B>, xs: seq<A>, i: nat)
    requires i < |xs| && f(xs[i]).None?
    ensures CountNone(f, xs) >= 1
    decreases i
  {
    if i > 0 {
      assert xs[1..][i - 1] == xs[i];
      CountNonePositive(f, xs[1..], i - 1);
    }
  }

  /** The kept lines of the text. */
  function KeptLines(text: string): seq<string> {
    CandidateLines(SplitOn(text, '\n'))
  }

  /** `parseContent(text)`. `None` stands for the TypeError a name-less line raises. */
  function ParseContent(text: string): Option<seq<Signatory>> {
    MapAll(ParseLine, KeptLines(text))
  }

  /**
   * One signatory per kept line, in order, and only when every kept line has
   * a name; the kept lines are exactly the lines that contain a hyphen.
   */
  lemma ParseContentMeaning(text: string)
    ensures ParseContent(text).Some? <==> forall i :: 0 <= i < |KeptLines(text)| ==> ParseLine(KeptLines(text)[i]).Some?
    ensures ParseContent(text).Some? ==>
              |ParseContent(text).value| == |KeptLines(text)| &&
              forall i :: 0 <= i < |KeptLines(text)| ==> ParseLine(KeptLines(text)[i]) == Some(ParseContent(text).value[i])
    ensures forall x :: x in KeptLines(text) <==> x in SplitOn(text, '\n') && '-' in x
  {
    forall x ensures x in KeptLines(text) <==> x in SplitOn(text, '\n') && '-' in x {
      CandidateLinesMembers(SplitOn(text, '\n'), x);
    }
  }

  // ---------------------------------------------------------------- the table

  /** A row of the rendered table: its number (`index + 1`), name and position. */
  datatype Row = Row(number: nat, name: string, position: Option<string>)

  /** What `signatoryTable(content)` renders: nothing, a table, or a render that throws. */
  datatype Table = NoTable | Rows(rows: seq<Row>) | RenderError

  function NumberRows(sigs: seq<Signatory>): seq<Row> {
    seq(|sigs|, i requires 0 <= i < |sigs| => Row(i + 1, sigs[i].name, sigs[i].position))
  }

  /**
   * The table `lines.map(parse)` renders: it throws when some line has no
   * signatory, otherwise row i is numbered i + 1 and holds the i-th line's.
   */
  function TableOf<A>(parse: A -> Option<Signatory>, lines: seq<A>): (t: Table)
    ensures !t.NoTable?
    ensures t.RenderError? <==> exists i :: 0 <= i < |lines| && parse(lines[i]).None?
    ensures t.Rows? ==>
              |t.rows| == |lines| &&
              forall i :: 0 <= i < |t.rows| ==>
                t.rows[i].number == i + 1 && parse(lines[i]) == Some(Signatory(t.rows[i].name, t.rows[i].position))
  {
    match MapAll(parse, lines)
    case None => RenderError
    case Some(sigs) => Rows(NumberRows(sigs))
  }

  /** `signatoryTable(content)`: no table for `null` or "", otherwise one row per kept line, numbered from 1. */
  function SignatoryTable(content: Option<string>): (t: Table)
    ensures t.NoTable? <==> content.None? || content == Some("")
    ensures t.RenderError? <==>
              content.Some? && content.value != "" &&
              exists i :: 0 <= i < |KeptLines(content.value)| && ParseLine(KeptLines(content.value)[i]).None?
    ensures t.Rows? ==>
              content.Some? && |t.rows| == |KeptLines(content.value)| &&
              forall i :: 0 <= i < |t.rows| ==>
                t.rows[i].number == i + 1 &&
                ParseLine(KeptLines(content.value)[i]) == Some(Signatory(t.rows[i].name, t.rows[i].position))
  {
    if content.None? || content.value == "" then NoTable
    else TableOf(ParseLine, KeptLines(content.value))
  }

  // ---------------------------------------------------------------- a name-less line aborts the table

  /** A bullet with nothing after it ("- ") has a split point with only white space around it. */
  lemma BlankBulletHasNoName(line: string)
    requires |line| >= 2 && line[0] == '-' && AllSpace(line[1..]) && NoLineTerminator(line)
    ensures ParseLine(line).None?
  {
    assert SplitPoint(line, 0) == Some(0);
    ParseLineAtSplitPoint(line, 0);
    assert Trim(line[..0]) == [] by {
      assert line[..0] == [];
      EmptyTrim();
    }
    assert Trim(line[1..]) == [] by {
      TrimEmptyIff(line[1..]);
    }
  }

  /** A text with such a line among its lines makes `parseContent` throw. */
  lemma BlankBulletBreaksParse(text: string, line: string)
    requires |line| >= 2 && line[0] == '-' && AllSpace(line[1..]) && NoLineTerminator(line)
    requires line in SplitOn(text, '\n')
    ensures text != "" && ParseContent(text).None?
  {
    assert |line| <= |text|;
    BlankBulletHasNoName(line);
    assert line in KeptLines(text) by {
      assert line[0] == '-';
      CandidateLinesMembers(SplitOn(text, '\n'), line);
    }
    MapAllNoneAt(ParseLine, KeptLines(text), line);
  }

  /** Any text with such a line among its lines renders no table at all: the render throws. */
  lemma BlankBulletAbortsTable(text: string, line: string)
    requires |line| >= 2 && line[0] == '-' && AllSpace(line[1..]) && NoLineTerminator(line)
    requires line in SplitOn(text, '\n')
    ensures SignatoryTable(Some(text)).RenderError?
  {
    BlankBulletBreaksParse(text, line);
  }

  /** A kept line that yields a signatory. */
  predicate HasName(line: string) {
    ParseLine(line).Some?
  }

  /** The kept lines that yield a signatory, in text order. */
  function NamedLines(text: string): (r: seq<string>)
    ensures forall line :: line in r <==> line in KeptLines(text) && ParseLine(line).Some?
  {
    var kept := KeptLines(text);
    forall line ensures line in Filter(HasName, kept) <==> line in kept && HasName(line) {
      FilterMembers(HasName, kept, line);
    }
    Filter(HasName, kept)
  }

  /**
   * `parseContent` as evidently intended: a kept line that yields no name is
   * skipped instead of aborting the render.
   */
  function ParseContentFixed(text: string): (r: seq<Signatory>)
    ensures MapAll(ParseLine, NamedLines(text)) == Some(r)
    ensures |r| == |KeptLines(text)| - CountNone(ParseLine, KeptLines(text))
    ensures forall sig :: sig in r ==> exists line :: line in KeptLines(text) && ParseLine(line) == Some(sig)
    ensures ParseContent(text).Some? ==> r == ParseContent(text).value
  {
    var kept := KeptLines(text);
    MapSomeIsFilterThenMap(ParseLine, HasName, kept);
    MapSomeLength(ParseLine, kept);
    MapSomeAgrees(ParseLine, kept);
    forall sig | sig in MapSome(ParseLine, kept)
      ensures exists line :: line in kept && ParseLine(line) == Some(sig)
    {
      MapSomeFrom(ParseLine, kept, sig);
    }
    MapSome(ParseLine, kept)
  }

  /**
   * The table built from the corrected parser: it never aborts, renders a
   * table for every non-empty answer, and row i holds the i-th signatory the
   * corrected parser returns.
   */
  function SignatoryTableFixed(content: Option<string>): (t: Table)
    ensures !t.RenderError?
    ensures t.NoTable? <==> content.None? || content == Some("")
    ensures t.Rows? ==>
              content.Some? &&
              var sigs := ParseContentFixed(content.value);
              |t.rows| == |sigs| &&
              forall i :: 0 <= i < |t.rows| ==>
                t.rows[i].number == i + 1 && Signatory(t.rows[i].name, t.rows[i].position) == sigs[i]
  {
    if content.None? || content.value == "" then NoTable
    else Rows(NumberRows(ParseContentFixed(content.value)))
  }

  /** The corrected table is the original render over just the kept lines that have a name. */
  lemma FixedTableRendersNamedLines(text: string)
    requires text != ""
    ensures SignatoryTableFixed(Some(text)) == TableOf(ParseLine, NamedLines(text))
  {
    assert MapAll(ParseLine, NamedLines(text)) == Some(ParseContentFixed(text));
  }

  /** Wherever the original table renders (or renders nothing), the corrected one is the same. */
  lemma FixedTableAgrees(content: Option<string>)
    ensures !SignatoryTable(content).RenderError? ==> SignatoryTableFixed(content) == SignatoryTable(content)
  {
    if content.Some? && content.value != "" && ParseContent(content.value).Some? {
      assert ParseContentFixed(content.value) == ParseContent(content.value).value;
    }
  }

  /** With the corrected parser a blank bullet is skipped: the table renders, one row short of the kept lines. */
  lemma BlankBulletSkippedWhenFixed(text: string, line: string)
    requires |line| >= 2 && line[0] == '-' && AllSpace(line[1..]) && NoLineTerminator(line)
    requires line in SplitOn(text, '\n')
    ensures SignatoryTableFixed(Some(text)).Rows?
    ensures |SignatoryTableFixed(Some(text)).rows| < |KeptLines(text)|
  {
    BlankBulletCounted(text, line);
    assert |ParseContentFixed(text)| < |KeptLines(text)|;
  }

  /** Such a line is a kept line without a name, so at least one kept line is name-less. */
  lemma BlankBulletCounted(text: string, line: string)
    requires |line| >= 2 && line[0] == '-' && AllSpace(line[1..]) && NoLineTerminator(line)
    requires line in SplitOn(text, '\n')
    ensures text != "" && CountNone(ParseLine, KeptLines(text)) >= 1
  {
    assert |line| <= |text|;
    BlankBulletHasNoName(line);
    assert '-' in line by { assert line[0] == '-'; }
    CandidateLinesMembers(SplitOn(text, '\n'), line);
    var kept := KeptLines(text);
    var i :| 0 <= i < |kept| && kept[i] == line;
    CountNonePositive(ParseLine, kept, i);
  }
}
