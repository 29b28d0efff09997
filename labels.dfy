/**
 * The pure helpers of a day cell and of the details panel: the tile colour
 * for a predicted audience, the game label shown in a cell, and the
 * capitalisation of the weekday name.
 */
module Labels {

  // ---- getViewerColor ---------------------------------------------------

  /** The five tile colours, from the quietest to the busiest day. */
  datatype ViewerColor = Green | Lime | Yellow | Orange | Red

  /** Position of a colour on the scale green (0) to red (4). */
  function Rank(c: ViewerColor): nat {
    match c
    case Green => 0
    case Lime => 1
    case Yellow => 2
    case Orange => 3
    case Red => 4
  }

  /**
   * `getViewerColor`: strict thresholds 2200, 2000, 1800 and 1600 divide
   * the predicted average audience into five bands.
   */
  function GetViewerColor(viewers: int): (c: ViewerColor)
    ensures c == Red <==> viewers > 2200
    ensures c == Orange <==> 2000 < viewers <= 2200
    ensures c == Yellow <==> 1800 < viewers <= 2000
    ensures c == Lime <==> 1600 < viewers <= 1800
    ensures c == Green <==> viewers <= 1600
  {
    if viewers > 2200 then Red
    else if viewers > 2000 then Orange
    else if viewers > 1800 then Yellow
    else if viewers > 1600 then Lime
    else Green
  }

  /** The Tailwind colour name of each band. */
  function ColorName(c: ViewerColor): (name: string)
    ensures |name| >= 3
  {
    match c
    case Red => "red"
    case Orange => "orange"
    case Yellow => "yellow"
    case Lime => "lime"
    case Green => "green"
  }

  /**
   * The Tailwind classes the page attaches to each colour: the band's
   * background, a lighter background on hover, and its border.
   */
  function ColorClasses(c: ViewerColor): (classes: string)
    ensures var name := ColorName(c);
            && |classes| > 3 + |name|
            && classes[..3] == "bg-" && classes[3..3 + |name|] == name
  {
    var name := ColorName(c);
    "bg-" + name + "-500/80 hover:bg-" + name + "-400/80 border-" + name + "-400"
  }

  /** Each colour has its own class string, so the tile shows which band it is in. */
  lemma ColorClassesDistinct(a: ViewerColor, b: ViewerColor)
    ensures ColorClasses(a) == ColorClasses(b) <==> a == b
  {
    if a != b {
      assert ColorName(a)[0] != ColorName(b)[0];
      assert ColorClasses(a)[3] == ColorName(a)[0];
      assert ColorClasses(b)[3] == ColorName(b)[0];
    }
  }

  /** More viewers never give a cooler colour. */
  lemma ViewerColorMonotone(a: int, b: int)
    requires a <= b
    ensures Rank(GetViewerColor(a)) <= Rank(GetViewerColor(b))
  {
  }

  // ---- capitalize -------------------------------------------------------

  /**
   * `toUpperCase` on one character, for the letters the weekday names use:
   * Latin a-z, Cyrillic а-я and ё.  Every other character is unchanged.
   */
  function ToUpperChar(c: char): (u: char)
    ensures 'a' <= c <= 'z' ==> 'A' <= u <= 'Z' && u as int == c as int - ('a' as int - 'A' as int)
    ensures 'а' <= c <= 'я' ==> 'А' <= u <= 'Я' && u as int == c as int - ('а' as int - 'А' as int)
    ensures c == 'ё' ==> u == 'Ё'
    ensures !('a' <= c <= 'z' || 'а' <= c <= 'я' || c == 'ё') ==> u == c
  {
    if 'a' <= c <= 'z' then (c as int - 32) as char
    else if 'а' <= c <= 'я' then (c as int - 32) as char
    else if c == 'ё' then 'Ё'
    else c
  }

  /**
   * `capitalize`: the first character upper-cased and the rest unchanged;
   * the empty string stays empty.
   */
  function Capitalize(s: string): (r: string)
    ensures |r| == |s|
    ensures s != [] ==> r[0] == ToUpperChar(s[0]) && r[1..] == s[1..]
  {
    if s == [] then "" else [ToUpperChar(s[0])] + s[1..]
  }

  /** Capitalising twice is capitalising once. */
  lemma CapitalizeIdempotent(s: string)
    ensures Capitalize(Capitalize(s)) == Capitalize(s)
  {
  }

  // ---- String.split, String.trim, Array.join -----------------------------

  /** `str.split(sep)` for a one-character separator; "" splits into [""]. */
  function Split(s: string, sep: char): (parts: seq<string>)
    ensures |parts| >= 1
    ensures forall i :: 0 <= i < |parts| ==> sep !in parts[i]
  {
    if s == [] then [""]
    else
      var rest := Split(s[1..], sep);
      if s[0] == sep then [""] + rest
      else [[s[0]] + rest[0]] + rest[1..]
  }

  /** The combined length of the parts. */
  function TotalLength(parts: seq<string>): nat {
    if parts == [] then 0 else |parts[0]| + TotalLength(parts[1..])
  }

  /** `parts.join(sep)`: the parts in order, one separator between neighbours. */
  function Join(parts: seq<string>, sep: string): (r: string)
    ensures |r| == TotalLength(parts) + (if parts == [] then 0 else (|parts| - 1) * |sep|)
  {
    if parts == [] then ""
    else if |parts| == 1 then parts[0]
    else parts[0] + sep + Join(parts[1..], sep)
  }

  /** Joining the pieces with the separator restores the split string. */
  lemma {:induction false} JoinSplit(s: string, sep: char)
    ensures Join(Split(s, sep), [sep]) == s
  {
    if s != [] {
      var rest := Split(s[1..], sep);
      JoinSplit(s[1..], sep);
      assert s == [s[0]] + s[1..];
      var parts := Split(s, sep);
      if s[0] == sep {
        assert parts == [""] + rest && parts[1..] == rest;
      } else {
        assert parts == [[s[0]] + rest[0]] + rest[1..];
        JoinCons(parts[0], parts, [sep]);
        assert [parts[0][1..]] + parts[1..] == rest;
      }
    }
  }

  /**
   * Splitting the join of `parts` on `sep` gives the parts back, each but
   * the first preceded by `pad`.
   */
  ghost predicate SplitsBack(parts: seq<string>, sep: char, pad: string)
    requires |parts| >= 1
  {
    var pieces := Split(Join(parts, [sep] + pad), sep);
    && |pieces| == |parts|
    && pieces[0] == parts[0]
    && forall i :: 1 <= i < |parts| ==> pieces[i] == pad + parts[i]
  }

  /**
   * Splitting a join whose separator starts with `sep` (and whose pieces and
   * padding do not contain it) gives the pieces back, each but the first
   * preceded by the rest of the separator.
   */
  lemma {:induction false} SplitJoinPadded(parts: seq<string>, sep: char, pad: string)
    requires |parts| >= 1
    requires sep !in pad
    requires forall i :: 0 <= i < |parts| ==> sep !in parts[i]
    ensures var pieces := Split(Join(parts, [sep] + pad), sep);
            && |pieces| == |parts|
            && pieces[0] == parts[0]
            && forall i :: 1 <= i < |parts| ==> pieces[i] == pad + parts[i]
    decreases |parts|, |parts[0]|
  {
    if parts[0] != [] {
      // Peel the first character of the first piece.
      var p0 := parts[0];
      var parts' := [p0[1..]] + parts[1..];
      assert sep !in p0[1..] by {
        forall k | 0 <= k < |p0[1..]| ensures p0[1..][k] != sep {
          assert p0[1..][k] == p0[k + 1];
        }
      }
      assert forall i :: 0 <= i < |parts'| ==> sep !in parts'[i];
      SplitJoinPadded(parts', sep, pad);
      SplitsBackPeel(parts, sep, pad);
    } else if |parts| == 1 {
      assert Join(parts, [sep] + pad) == "";
    } else {
      SplitJoinPadded(parts[1..], sep, pad);
      SplitsBackEmptyHead(parts, sep, pad);
    }
  }

  /** The step of SplitJoinPadded that peels one character off the first piece. */
  lemma SplitsBackPeel(parts: seq<string>, sep: char, pad: string)
    requires |parts| >= 1 && parts[0] != [] && parts[0][0] != sep
    requires SplitsBack([parts[0][1..]] + parts[1..], sep, pad)
    ensures SplitsBack(parts, sep, pad)
  {
    var joined := Join(parts, [sep] + pad);
    var p0 := parts[0];
    var parts' := [p0[1..]] + parts[1..];
    JoinCons(p0, parts, [sep] + pad);
    assert joined[1..] == Join(parts', [sep] + pad);
    assert joined[0] == p0[0] != sep;
    var r := Split(joined[1..], sep);
    assert Split(joined, sep) == [[p0[0]] + r[0]] + r[1..];
    assert [p0[0]] + p0[1..] == p0;
    forall i | 1 <= i < |parts| ensures Split(joined, sep)[i] == pad + parts[i] {
      assert parts'[i] == parts[i];
    }
  }

  /** The step of SplitJoinPadded for an empty first piece. */
  lemma SplitsBackEmptyHead(parts: seq<string>, sep: char, pad: string)
    requires |parts| >= 2 && parts[0] == [] && sep !in pad
    requires SplitsBack(parts[1..], sep, pad)
    ensures SplitsBack(parts, sep, pad)
  {
    var sepPad := [sep] + pad;
    var joined := Join(parts, sepPad);
    var tail := parts[1..];
    var rest := Join(tail, sepPad);
    assert joined == parts[0] + sepPad + rest;
    assert joined == [sep] + (pad + rest);
    assert joined[1..] == pad + rest;
    var pieces := Split(joined, sep);
    assert pieces == [""] + Split(pad + rest, sep);
    SplitPad(pad, rest, sep);
    var ts := Split(rest, sep);
    assert pieces == [""] + ([pad + ts[0]] + ts[1..]);
    forall i | 1 <= i < |parts| ensures pieces[i] == pad + parts[i] {
      assert tail[i - 1] == parts[i];
      if i >= 2 {
        assert pieces[i] == ts[i - 1];
      }
    }
  }

  /** Joining with a non-empty first piece starts with its first character. */
  lemma JoinCons(p0: string, parts: seq<string>, sep: string)
    requires |parts| >= 1 && parts[0] == p0 && p0 != []
    ensures Join(parts, sep) == [p0[0]] + Join([p0[1..]] + parts[1..], sep)
  {
    var parts' := [p0[1..]] + parts[1..];
    assert parts'[1..] == parts[1..];
    assert p0 == [p0[0]] + p0[1..];
  }

  /** A prefix free of the separator is glued onto the first piece. */
  lemma {:induction false} SplitPad(pad: string, rest: string, sep: char)
    requires sep !in pad
    ensures var r := Split(rest, sep);
            Split(pad + rest, sep) == [pad + r[0]] + r[1..]
    decreases |pad|
  {
    if pad != [] {
      assert (pad + rest)[1..] == pad[1..] + rest;
      assert sep !in pad[1..] by {
        forall k | 0 <= k < |pad[1..]| ensures pad[1..][k] != sep {
          assert pad[1..][k] == pad[k + 1];
        }
      }
      SplitPad(pad[1..], rest, sep);
      var r := Split(rest, sep);
      var r' := Split(pad[1..] + rest, sep);
      assert r' == [pad[1..] + r[0]] + r[1..];
      assert (pad + rest)[0] == pad[0] != sep;
      assert Split(pad + rest, sep) == [[pad[0]] + r'[0]] + r'[1..];
      assert [pad[0]] + (pad[1..] + r[0]) == pad + r[0];
    } else {
      assert pad + rest == rest;
      var r := Split(rest, sep);
      assert r == [r[0]] + r[1..];
      assert pad + r[0] == r[0];
    }
  }

  /**
   * The characters `String.prototype.trim` removes: white space and line
   * terminators of ECMAScript (the Unicode Zs category among them).
   */
  predicate IsJsWhitespace(c: char) {
    c == '\U{9}' || c == '\U{A}' || c == '\U{B}' || c == '\U{C}' || c == '\U{D}'
    || c == '\U{20}' || c == '\U{A0}' || c == '\U{1680}' || ('\U{2000}' <= c <= '\U{200A}')
    || c == '\U{2028}' || c == '\U{2029}' || c == '\U{202F}' || c == '\U{205F}' || c == '\U{3000}'
    || c == '\U{FEFF}'
  }

  /** Neither end of `s` is white space. */
  predicate IsTrimmed(s: string) {
    s == [] || (!IsJsWhitespace(s[0]) && !IsJsWhitespace(s[|s| - 1]))
  }

  /** The first position at or after `i` that is not white space (or |s|). */
  function TrimStartIndex(s: string, i: nat): (j: nat)
    requires i <= |s|
    ensures i <= j <= |s|
    ensures forall k :: i <= k < j ==> IsJsWhitespace(s[k])
    ensures j == |s| || !IsJsWhitespace(s[j])
    decreases |s| - i
  {
    if i < |s| && IsJsWhitespace(s[i]) then TrimStartIndex(s, i + 1) else i
  }

  /** The end of `s[lo..j]` once white space at its end is dropped. */
  function TrimEndIndex(s: string, lo: nat, j: nat): (e: nat)
    requires lo <= j <= |s|
    ensures lo <= e <= j
    ensures forall k :: e <= k < j ==> IsJsWhitespace(s[k])
    ensures e == lo || !IsJsWhitespace(s[e - 1])
    decreases j
  {
    if lo < j && IsJsWhitespace(s[j - 1]) then TrimEndIndex(s, lo, j - 1) else j
  }

  /**
   * `str.trim()`: the slice of `s` left once white space is dropped from
   * both ends; it neither starts nor ends with white space, and only white
   * space lies around it.
   */
  function Trim(s: string): (r: string)
    ensures IsTrimmed(r)
    ensures IsTrimmed(s) ==> r == s
    ensures var i := TrimStartIndex(s, 0);
            && i + |r| <= |s| && r == s[i..i + |r|]
            && (forall k :: 0 <= k < i ==> IsJsWhitespace(s[k]))
            && (forall k :: i + |r| <= k < |s| ==> IsJsWhitespace(s[k]))
  {
    var i := TrimStartIndex(s, 0);
    var e := TrimEndIndex(s, i, |s|);
    assert IsTrimmed(s) ==> i == 0 && e == |s|;
    s[i..e]
  }

  /** Skipping white space from inside `pad` stops where `t` begins. */
  lemma {:induction false} TrimStartSkipsPadding(pad: string, t: string, i: nat)
    requires forall k :: 0 <= k < |pad| ==> IsJsWhitespace(pad[k])
    requires t == [] || !IsJsWhitespace(t[0])
    requires i <= |pad|
    ensures TrimStartIndex(pad + t, i) == |pad|
    decreases |pad| - i
  {
    var s := pad + t;
    if i < |pad| {
      assert s[i] == pad[i];
      TrimStartSkipsPadding(pad, t, i + 1);
    }
  }

  /** White space in front of a trimmed string is removed by trim. */
  lemma TrimDropsPadding(pad: string, t: string)
    requires forall k :: 0 <= k < |pad| ==> IsJsWhitespace(pad[k])
    requires IsTrimmed(t)
    ensures Trim(pad + t) == t
  {
    var s := pad + t;
    TrimStartSkipsPadding(pad, t, 0);
    assert TrimEndIndex(s, |pad|, |s|) == |s|;
    assert s[|pad|..|s|] == t;
  }

  // ---- The game label of a day cell --------------------------------------

  /** `game.split(',').map(g => g.trim())`. */
  function GameParts(game: string): (parts: seq<string>)
    ensures |parts| == |Split(game, ',')| >= 1
    ensures forall i :: 0 <= i < |parts| ==> parts[i] == Trim(Split(game, ',')[i])
    ensures forall i :: 0 <= i < |parts| ==> IsTrimmed(parts[i]) && ',' !in parts[i]
  {
    var raw := Split(game, ',');
    seq(|raw|, i requires 0 <= i < |raw| => Trim(raw[i]))
  }

  /**
   * The label of a cell: with more than four games the first four joined by
   * ", " and followed by an ellipsis, otherwise all of them joined.
   */
  function GameLabel(game: string): (text: string)
    ensures |GameParts(game)| > 4 ==> text != [] && text[|text| - 1] == '…'
  {
    var games := GameParts(game);
    if |games| > 4 then Join(games[..4], ", ") + "…" else Join(games, ", ")
  }

  /**
   * Reading a ", "-joined list of trimmed, comma-free names back (split on
   * ',' and trim each piece) gives the names.
   */
  lemma {:induction false} ReadBackJoin(names: seq<string>)
    requires |names| >= 1
    requires forall i :: 0 <= i < |names| ==> ',' !in names[i] && IsTrimmed(names[i])
    ensures GameParts(Join(names, ", ")) == names
  {
    assert ", " == [','] + " ";
    SplitJoinPadded(names, ',', " ");
    var text := Join(names, ", ");
    var pieces := Split(text, ',');
    var r := GameParts(text);
    assert |r| == |pieces| == |names|;
    forall i | 0 <= i < |names| ensures r[i] == names[i] {
      assert r[i] == Trim(pieces[i]);
      if i > 0 {
        assert pieces[i] == " " + names[i];
        TrimDropsPadding(" ", names[i]);
      } else {
        assert pieces[0] == names[0];
      }
    }
  }

  /**
   * The label names exactly the first min(4, n) games of the record, in
   * order: reading it back (dropping the ellipsis when games were left out,
   * splitting on ',' and trimming) gives them.
   */
  lemma {:induction false} GameLabelShowsFirstGames(game: string)
    ensures var games := GameParts(game);
            var text := GameLabel(game);
            var truncated := |games| > 4;
            var shown := if truncated then games[..4] else games;
            && (truncated ==> text != [] && text[|text| - 1] == '…')
            && GameParts(if truncated then text[..|text| - 1] else text) == shown
  {
    var games := GameParts(game);
    if |games| > 4 {
      var shown := games[..4];
      ReadBackJoin(shown);
      var text := Join(shown, ", ") + "…";
      assert text[..|text| - 1] == Join(shown, ", ");
    } else {
      ReadBackJoin(games);
    }
  }
}
