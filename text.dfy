/** String operations of the editor: `String.prototype.trim`, the
    comma-list inputs (`split(',')`, `map(trim)`, `filter(Boolean)`), the
    `join(', ')` that shows such a list back in its input, and the decimal
    rendering of a count inside a template literal. */
module Text {
  import Seqs

  /** The white-space and line-terminator characters that `trim` removes
      (the common ones; see README). */
  predicate IsSpace(c: char) {
    c == ' ' || c == '\t' || c == '\n' || c == '\r' || c == '\U{000B}' || c == '\U{000C}'
    || c == '\U{00A0}' || c == '\U{FEFF}' || c == '\U{2028}' || c == '\U{2029}'
  }

  /** A string with neither leading nor trailing white space. */
  predicate IsTrimmed(s: string) {
    s == "" || (!IsSpace(s[0]) && !IsSpace(s[|s| - 1]))
  }

  /** A string made of white space only; `!s.trim()` holds exactly for these. */
  predicate IsBlank(s: string) {
    forall i :: 0 <= i < |s| ==> IsSpace(s[i])
  }

  /** How many white-space characters `s` starts with. */
  function LeadingBlanks(s: string): (k: nat)
    ensures k <= |s|
    ensures k < |s| ==> !IsSpace(s[k])
    decreases |s|
  {
    if s != "" && IsSpace(s[0]) then 1 + LeadingBlanks(s[1..]) else 0
  }

  /** Where the white space that `s` ends with begins. */
  function TrailingBlanksStart(s: string): (k: nat)
    ensures k <= |s|
    ensures k > 0 ==> !IsSpace(s[k - 1])
    decreases |s|
  {
    if s != "" && IsSpace(s[|s| - 1]) then TrailingBlanksStart(s[..|s| - 1]) else |s|
  }

  /** `s.trim()`: `s` without its leading and trailing white space. The
      result has no white space at either end, and it is the piece of `s`
      left once the white space before and after it is removed: only white
      space is dropped, and only at the ends. */
  function Trim(s: string): (r: string)
    ensures IsTrimmed(r)
    ensures LeadingBlanks(s) + |r| <= |s|
    ensures r == s[LeadingBlanks(s)..LeadingBlanks(s) + |r|]
    ensures IsBlank(s[..LeadingBlanks(s)]) && IsBlank(s[LeadingBlanks(s) + |r|..])
  {
    var i := LeadingBlanks(s);
    var rest := s[i..];
    LeadingBlanksAreBlank(s);
    TrailingBlanksAreBlank(rest);
    assert s[i + TrailingBlanksStart(rest)..] == rest[TrailingBlanksStart(rest)..];
    rest[..TrailingBlanksStart(rest)]
  }

  /** The characters `LeadingBlanks` counts are all white space. */
  lemma {:induction false} LeadingBlanksAreBlank(s: string)
    ensures IsBlank(s[..LeadingBlanks(s)])
    decreases |s|
  {
    if s != "" && IsSpace(s[0]) {
      LeadingBlanksAreBlank(s[1..]);
      assert s[..LeadingBlanks(s)] == [s[0]] + s[1..][..LeadingBlanks(s[1..])];
    }
  }

  /** The characters from `TrailingBlanksStart` on are all white space. */
  lemma {:induction false} TrailingBlanksAreBlank(s: string)
    ensures IsBlank(s[TrailingBlanksStart(s)..])
    decreases |s|
  {
    if s != "" && IsSpace(s[|s| - 1]) {
      TrailingBlanksAreBlank(s[..|s| - 1]);
      assert s[TrailingBlanksStart(s)..] == s[..|s| - 1][TrailingBlanksStart(s[..|s| - 1])..] + [s[|s| - 1]];
    }
  }

  /** Trimming leaves nothing exactly when the text is all blanks. */
  lemma TrimBlank(s: string)
    ensures Trim(s) == "" <==> IsBlank(s)
  {
    var i := LeadingBlanks(s);
    var rest := s[i..];
    var r := rest[..TrailingBlanksStart(rest)];
    LeadingBlanksAreBlank(s);
    TrailingBlanksAreBlank(rest);
    assert r == s[i..i + |r|];
    if r == "" {
      assert s == s[..i] + rest;
    } else {
      assert !IsSpace(s[i]);
    }
  }

  /** The trimmed string is the piece of `s` between its leading and its
      trailing white space: `s` is that white space, the piece, and white
      space again, so the piece has no character `s` does not have. */
  lemma TrimIsPiece(s: string)
    ensures LeadingBlanks(s) + |Trim(s)| <= |s|
    ensures Trim(s) == s[LeadingBlanks(s)..LeadingBlanks(s) + |Trim(s)|]
    ensures IsBlank(s[..LeadingBlanks(s)])
    ensures IsBlank(s[LeadingBlanks(s) + |Trim(s)|..])
    ensures s == s[..LeadingBlanks(s)] + Trim(s) + s[LeadingBlanks(s) + |Trim(s)|..]
    ensures forall c :: c in Trim(s) ==> c in s
  {
    var i := LeadingBlanks(s);
    var j := i + |Trim(s)|;
    assert s == s[..i] + s[i..j] + s[j..];
  }

  lemma TrimOfTrimmed(s: string)
    requires IsTrimmed(s)
    ensures Trim(s) == s
  {
  }

  /** The space after a comma does not survive `trim`. */
  lemma TrimSpaced(x: string)
    requires IsTrimmed(x)
    ensures Trim(" " + x) == x
  {
    TrimLeadingSpace(' ', x);
    TrimOfTrimmed(x);
  }

  /** Leading white space does not survive `trim`. */
  lemma TrimLeadingSpace(c: char, s: string)
    requires IsSpace(c)
    ensures Trim([c] + s) == Trim(s)
  {
    var t := [c] + s;
    TrimIsPiece(t);
    TrimIsPiece(s);
    assert t[1..] == s;
    assert LeadingBlanks(t) == 1 + LeadingBlanks(s);
    assert t[LeadingBlanks(t)..] == s[LeadingBlanks(s)..];
  }

  /** `s.split(sep)`: the pieces of `s` between occurrences of `sep`. There
      is always at least one piece (`"".split(',')` is `[""]`), no piece
      contains `sep`, and there is one piece more than there are separators. */
  function SplitOn(s: string, sep: char): (r: seq<string>)
    ensures |r| >= 1
    ensures forall p :: p in r ==> sep !in p
    ensures |r| == multiset(s)[sep] + 1
    decreases |s|
  {
    if s == "" then [""]
    else
      var rest := SplitOn(s[1..], sep);
      assert s == [s[0]] + s[1..];
      if s[0] == sep then [""] + rest
      else [[s[0]] + rest[0]] + rest[1..]
  }

  /** A string without the separator is one piece. */
  lemma {:induction false} SplitOnNoSep(s: string, sep: char)
    requires sep !in s
    ensures SplitOn(s, sep) == [s]
    decreases |s|
  {
    if s != "" {
      SplitOnNoSep(s[1..], sep);
      assert [s[0]] + s[1..] == s;
    }
  }

  /** The first separator ends the first piece. */
  lemma {:induction false} SplitOnFirst(a: string, sep: char, b: string)
    requires sep !in a
    ensures SplitOn(a + [sep] + b, sep) == [a] + SplitOn(b, sep)
    decreases |a|
  {
    var s := a + [sep] + b;
    if a == "" {
      assert s[1..] == b;
    } else {
      assert s[1..] == a[1..] + [sep] + b;
      SplitOnFirst(a[1..], sep, b);
      assert [a[0]] + a[1..] == a;
    }
  }

  /** `xs.join(sep)`. */
  function Join(xs: seq<string>, sep: string): (r: string)
    ensures xs == [] ==> r == ""
    ensures |xs| == 1 ==> r == xs[0]
    decreases |xs|
  {
    if xs == [] then ""
    else if |xs| == 1 then xs[0]
    else xs[0] + sep + Join(xs[1..], sep)
  }

  /** The entries of a comma-list input: split on ',', each piece trimmed,
      empty pieces dropped (`value.split(',').map(t => t.trim()).filter(Boolean)`). */
  function SplitCommaList(s: string): (r: seq<string>)
    ensures forall e :: e in r ==> e != "" && ',' !in e && IsTrimmed(e)
  {
    var pieces := SplitOn(s, ',');
    var trimmed := TrimEach(pieces);
    assert forall i :: 0 <= i < |pieces| ==> ',' !in trimmed[i] by {
      forall i | 0 <= i < |pieces| ensures ',' !in trimmed[i] {
        assert pieces[i] in pieces;
        TrimIsPiece(pieces[i]);
      }
    }
    Seqs.KeepWhere(trimmed, (t: string) => t != "")
  }

  /** The entries after the first, each with the space that `", "` puts
      after a comma. */
  function SpacedTail(xs: seq<string>): (r: seq<string>)
    requires xs != []
    ensures |r| == |xs| - 1
    ensures forall i :: 0 <= i < |r| ==> r[i] == " " + xs[i + 1]
  {
    seq(|xs| - 1, i requires 0 <= i < |xs| - 1 => " " + xs[i + 1])
  }

  /** Pieces of `", "`-joined entries: the first as is, the others with the
      one space that follows each comma. */
  lemma {:induction false} SplitJoined(xs: seq<string>)
    requires xs != []
    requires forall x :: x in xs ==> ',' !in x
    ensures SplitOn(Join(xs, ", "), ',') == [xs[0]] + SpacedTail(xs)
    decreases |xs|
  {
    if |xs| == 1 {
      SplitOnNoSep(xs[0], ',');
    } else {
      var tail := xs[1..];
      SplitJoined(tail);
      assert xs == [xs[0]] + tail;
      SplitJoinedStep(xs[0], tail);
    }
  }

  /** One more comma-free entry in front: its piece comes first, and the
      old first piece gets the space that follows the new comma. */
  lemma SplitJoinedStep(x: string, tail: seq<string>)
    requires ',' !in x && tail != []
    requires SplitOn(Join(tail, ", "), ',') == [tail[0]] + SpacedTail(tail)
    ensures SplitOn(Join([x] + tail, ", "), ',') == [x] + SpacedTail([x] + tail)
  {
    var xs := [x] + tail;
    var t := Join(tail, ", ");
    JoinCons(x, tail);
    SplitOnFirst(x, ',', " " + t);
    SpacedFirst(t, tail);
    SpacedTailCons(x, tail);
    calc {
      SplitOn(Join(xs, ", "), ',');
      SplitOn(x + [','] + (" " + t), ',');
      [x] + SplitOn(" " + t, ',');
      [x] + ([" " + tail[0]] + SpacedTail(tail));
      [x] + SpacedTail(xs);
    }
  }

  /** Joining with `", "` puts the first entry, a comma and a space before
      the join of the rest. */
  lemma JoinCons(x: string, tail: seq<string>)
    requires tail != []
    ensures Join([x] + tail, ", ") == x + [','] + (" " + Join(tail, ", "))
  {
    assert ([x] + tail)[1..] == tail;
  }

  /** A space in front of `", "`-joined entries goes into the first piece. */
  lemma SpacedFirst(t: string, tail: seq<string>)
    requires tail != []
    requires SplitOn(t, ',') == [tail[0]] + SpacedTail(tail)
    ensures SplitOn(" " + t, ',') == [" " + tail[0]] + SpacedTail(tail)
  {
    SplitOnLeading(' ', t, ',');
  }

  /** The spaced tail of `[x] + tail` is the spaced first entry of `tail`,
      then the spaced tail of `tail`. */
  lemma SpacedTailCons(x: string, tail: seq<string>)
    requires tail != []
    ensures SpacedTail([x] + tail) == [" " + tail[0]] + SpacedTail(tail)
  {
  }

  /** A character other than the separator joins the first piece. */
  lemma SplitOnLeading(c: char, s: string, sep: char)
    requires c != sep
    ensures var rest := SplitOn(s, sep);
      SplitOn([c] + s, sep) == [[c] + rest[0]] + rest[1..]
  {
    assert ([c] + s)[0] == c && ([c] + s)[1..] == s;
  }

  /** Each piece of the comma-list input, trimmed. */
  function TrimEach(pieces: seq<string>): (r: seq<string>)
    ensures |r| == |pieces|
    ensures forall i :: 0 <= i < |pieces| ==> r[i] == Trim(pieces[i])
  {
    seq(|pieces|, i requires 0 <= i < |pieces| => Trim(pieces[i]))
  }

  /** Trimming the pieces of `", "`-joined trimmed entries restores the entries. */
  lemma TrimJoinedPieces(xs: seq<string>)
    requires xs != []
    requires forall x :: x in xs ==> IsTrimmed(x)
    ensures TrimEach([xs[0]] + SpacedTail(xs)) == xs
  {
    var pieces := [xs[0]] + SpacedTail(xs);
    var trimmed := TrimEach(pieces);
    forall i | 0 <= i < |xs| ensures trimmed[i] == xs[i] {
      assert xs[i] in xs;
      if i == 0 {
        TrimOfTrimmed(xs[0]);
      } else {
        TrimSpaced(xs[i]);
      }
    }
  }

  /** A list shown as `list.join(', ')` and typed back unchanged into its
      comma-list input yields the same list, provided its entries are
      non-empty, comma-free and trimmed (as every entry the input produces is). */
  lemma JoinSplitRoundTrip(xs: seq<string>)
    requires forall x :: x in xs ==> x != "" && ',' !in x && IsTrimmed(x)
    ensures SplitCommaList(Join(xs, ", ")) == xs
  {
    var pieces := SplitOn(Join(xs, ", "), ',');
    if xs == [] {
      assert TrimEach(pieces) == [""];
    } else {
      SplitJoined(xs);
      TrimJoinedPieces(xs);
      assert TrimEach(pieces) == xs;
    }
  }

  function DigitChar(d: nat): (c: char)
    requires d < 10
  {
    "0123456789"[d]
  }

  /** The decimal numeral of `n`, as `${n}` renders a non-negative integer. */
  function NatToString(n: nat): (r: string)
    ensures |r| >= 1
    ensures IsDigits(r)
    ensures r[0] == '0' ==> n == 0
  {
    if n < 10 then [DigitChar(n)] else NatToString(n / 10) + [DigitChar(n % 10)]
  }

  predicate IsDigits(s: string) {
    forall i :: 0 <= i < |s| ==> '0' <= s[i] <= '9'
  }

  /** The value of a decimal numeral. */
  function DecimalValue(s: string): (v: nat)
    requires IsDigits(s)
  {
    if s == "" then 0 else 10 * DecimalValue(s[..|s| - 1]) + (s[|s| - 1] as int - '0' as int)
  }

  /** Distinct counts render as distinct numerals: reading the numeral back
      gives the count. */
  lemma {:induction false} NatToStringRoundTrip(n: nat)
    ensures DecimalValue(NatToString(n)) == n
  {
    if n >= 10 {
      NatToStringRoundTrip(n / 10);
      var s := NatToString(n);
      assert s[..|s| - 1] == NatToString(n / 10);
    }
  }
}
