/** The bank-account OCR decoder of ocr/python/ocr.py: three text lines
    hold nine glyphs of 3x3 characters; each glyph is looked up in a fixed
    table of the ten digits, the account number is annotated ILL when a
    glyph is unknown and ERR when its mod-11 checksum fails (with checksum
    checking switched on), and a failing account is repaired by changing
    one character of one glyph. */
module Ocr {
  import opened Wrappers
  import opened Sorting

  /** A glyph: its rows, top to bottom (a tuple of strings in the source). */
  type Slug = seq<string>

  /** The table `digits`: ten glyphs and the digit each one shows. */
  const Digits: map<Slug, char> := map[
    ["   ", "  |", "  |"] := '1',
    [" _ ", " _|", "|_ "] := '2',
    [" _ ", " _|", " _|"] := '3',
    ["   ", "|_|", "  |"] := '4',
    [" _ ", "|_ ", " _|"] := '5',
    [" _ ", "|_ ", "|_|"] := '6',
    [" _ ", "  |", "  |"] := '7',
    [" _ ", "|_|", "|_|"] := '8',
    [" _ ", "|_|", " _|"] := '9',
    [" _ ", "| |", "|_|"] := '0'
  ]

  predicate IsDigit(c: char)
  {
    '0' <= c <= '9'
  }

  /** The glyph the table gives for digit `c`. */
  function Glyph(c: char): (g: Slug)
    requires IsDigit(c)
    ensures g in Digits && Digits[g] == c
    ensures |g| == 3 && forall r :: 0 <= r < 3 ==> |g[r]| == 3
  {
    match c
    case '0' => [" _ ", "| |", "|_|"]
    case '1' => ["   ", "  |", "  |"]
    case '2' => [" _ ", " _|", "|_ "]
    case '3' => [" _ ", " _|", " _|"]
    case '4' => ["   ", "|_|", "  |"]
    case '5' => [" _ ", "|_ ", " _|"]
    case '6' => [" _ ", "|_ ", "|_|"]
    case '7' => [" _ ", "  |", "  |"]
    case '8' => [" _ ", "|_|", "|_|"]
    case '9' => [" _ ", "|_|", " _|"]
  }

  /** The table is a one-to-one map from ten glyphs of three rows of three
      characters onto the ten digits. */
  lemma DigitsTable()
    ensures forall g :: g in Digits ==> IsDigit(Digits[g]) && Glyph(Digits[g]) == g
    ensures forall g :: g in Digits ==> |g| == 3 && forall r :: 0 <= r < 3 ==> |g[r]| == 3
    ensures forall g1, g2 :: g1 in Digits && g2 in Digits && Digits[g1] == Digits[g2] ==> g1 == g2
    ensures forall c :: IsDigit(c) ==> Glyph(c) in Digits
  {
    DigitsGlyphs();
    forall g1, g2 | g1 in Digits && g2 in Digits && Digits[g1] == Digits[g2] ensures g1 == g2 {
      assert Glyph(Digits[g1]) == g1 && Glyph(Digits[g2]) == g2;
    }
  }

  /** Each entry of the table is the glyph of its digit. */
  lemma DigitsGlyphs()
    ensures forall g :: g in Digits ==> IsDigit(Digits[g]) && Glyph(Digits[g]) == g
  {
  }

  /** `digits.get(slug)`. */
  function Lookup(slug: Slug): Option<char>
  {
    if slug in Digits then Some(Digits[slug]) else None
  }

  /** `digits.get(slug, '?')`. */
  function DigitOf(slug: Slug): char
  {
    if slug in Digits then Digits[slug] else '?'
  }

  /** Python's `s[lo:hi]`, which stops at the end of the string. */
  function PySlice(s: string, lo: nat, hi: nat): (r: string)
    requires lo <= hi
    ensures hi <= |s| ==> r == s[lo..hi]
    ensures |r| <= hi - lo
  {
    var h := if hi <= |s| then hi else |s|;
    var l := if lo <= h then lo else h;
    s[l..h]
  }

  /** `slugs`: glyph `p` is characters `3p` to `3p + 2` of every line. */
  function Slugs(lines: seq<string>): (r: seq<Slug>)
    ensures |r| == 9
    ensures forall p :: 0 <= p < 9 ==> |r[p]| == |lines|
    ensures forall p, i :: 0 <= p < 9 && 0 <= i < |lines| && |lines[i]| >= 27 ==>
              r[p][i] == lines[i][3 * p .. 3 * p + 3] && |r[p][i]| == 3
  {
    seq(9, p requires 0 <= p < 9 => seq(|lines|, i requires 0 <= i < |lines| => PySlice(lines[i], 3 * p, 3 * p + 3)))
  }

  /** `slugs_to_digits`: one character per glyph, '?' for a glyph the table
      does not know. */
  function SlugsToDigits(slugs: seq<Slug>): (r: string)
    ensures |r| == |slugs|
    ensures forall i :: 0 <= i < |r| ==> (r[i] == '?' <==> slugs[i] !in Digits)
    ensures forall i :: 0 <= i < |r| && slugs[i] in Digits ==> r[i] == Digits[slugs[i]] && IsDigit(r[i])
    ensures |slugs| == 9 && !Illegible(r) ==> ChecksumDomain(r)
  {
    DigitsTable();
    seq(|slugs|, i requires 0 <= i < |slugs| => DigitOf(slugs[i]))
  }

  /** Row `r` of the glyphs of `ds`, side by side. */
  function RenderRow(ds: string, r: nat): string
    requires r < 3 && forall i :: 0 <= i < |ds| ==> IsDigit(ds[i])
  {
    if ds == [] then "" else Glyph(ds[0])[r] + RenderRow(ds[1..], r)
  }

  /** The three lines that show the digits `ds`. */
  function Render(ds: string): seq<string>
    requires forall i :: 0 <= i < |ds| ==> IsDigit(ds[i])
  {
    [RenderRow(ds, 0), RenderRow(ds, 1), RenderRow(ds, 2)]
  }

  lemma {:induction false} RenderRowSlice(ds: string, r: nat, p: nat)
    requires r < 3 && forall i :: 0 <= i < |ds| ==> IsDigit(ds[i])
    requires p < |ds|
    ensures |RenderRow(ds, r)| == 3 * |ds|
    ensures RenderRow(ds, r)[3 * p .. 3 * p + 3] == Glyph(ds[p])[r]
  {
    if p == 0 {
      RenderRowLength(ds[1..], r);
    } else {
      RenderRowSlice(ds[1..], r, p - 1);
      var head := Glyph(ds[0])[r];
      var tail := RenderRow(ds[1..], r);
      assert (head + tail)[3 * p .. 3 * p + 3] == tail[3 * (p - 1) .. 3 * (p - 1) + 3];
    }
  }

  lemma {:induction false} RenderRowLength(ds: string, r: nat)
    requires r < 3 && forall i :: 0 <= i < |ds| ==> IsDigit(ds[i])
    ensures |RenderRow(ds, r)| == 3 * |ds|
  {
    if ds != [] {
      RenderRowLength(ds[1..], r);
    }
  }

  /** Reading back the lines that show nine digits gives those digits. */
  lemma RenderRoundTrip(ds: string)
    requires |ds| == 9 && forall i :: 0 <= i < 9 ==> IsDigit(ds[i])
    ensures var lines := Render(ds);
            |lines| == 3 && (forall i :: 0 <= i < 3 ==> |lines[i]| == 27)
            && SlugsToDigits(Slugs(lines)) == ds
  {
    var lines := Render(ds);
    RenderRowLength(ds, 0);
    RenderRowLength(ds, 1);
    RenderRowLength(ds, 2);
    var slugs := Slugs(lines);
    forall p | 0 <= p < 9 ensures slugs[p] == Glyph(ds[p]) {
      RenderRowSlice(ds, 0, p);
      RenderRowSlice(ds, 1, p);
      RenderRowSlice(ds, 2, p);
    }
  }

  function DigitValue(c: char): nat
    requires IsDigit(c)
  {
    c as int - '0' as int
  }

  /** The last nine characters are digits, as `int(account[-x])` needs. */
  predicate ChecksumDomain(account: string)
  {
    |account| >= 9 && forall i :: |account| - 9 <= i < |account| ==> IsDigit(account[i])
  }

  /** The sum of `x * digit(account[-x])` for `x` from 1 to `n`. */
  function WeightedSum(account: string, n: nat): nat
    requires n <= 9 && ChecksumDomain(account)
  {
    if n == 0 then 0
    else WeightedSum(account, n - 1) + n * DigitValue(account[|account| - n])
  }

  /** `checksum_total`: the digit `x` places from the right weighs `x`. */
  function ChecksumTotal(account: string): nat
    requires ChecksumDomain(account)
  {
    WeightedSum(account, 9)
  }

  /** `checksum`. */
  function Checksum(account: string): (r: nat)
    requires ChecksumDomain(account)
    ensures r <= 10
  {
    ChecksumTotal(account) % 11
  }

  lemma UpdateDomain(account: string, x: nat, c: char)
    requires ChecksumDomain(account) && 1 <= x <= 9 && IsDigit(c)
    ensures ChecksumDomain(account[|account| - x := c])
  {
  }

  lemma Distribute(n: int, a: int, b: int)
    ensures n * a == n * b + n * (a - b)
  {
  }

  lemma {:induction false} WeightedSumUpdate(account: string, n: nat, x: nat, c: char)
    requires n <= 9 && ChecksumDomain(account) && 1 <= x <= 9 && IsDigit(c)
    requires ChecksumDomain(account[|account| - x := c])
    ensures WeightedSum(account[|account| - x := c], n)
            == WeightedSum(account, n) + (if x <= n then x * (DigitValue(c) - DigitValue(account[|account| - x])) else 0)
  {
    if n > 0 {
      WeightedSumUpdate(account, n - 1, x, c);
      var a' := account[|account| - x := c];
      var before: int, after: int := DigitValue(account[|account| - n]), DigitValue(a'[|a'| - n]);
      assert WeightedSum(a', n) == WeightedSum(a', n - 1) + n * after;
      assert WeightedSum(account, n) == WeightedSum(account, n - 1) + n * before;
      if n == x {
        assert after == DigitValue(c);
        Distribute(n, after, before);
      } else {
        assert after == before;
      }
    }
  }

  /** Changing the digit `x` places from the right from `d` to `c` moves
      the total by `x * (c - d)`: the weights are 1 (rightmost) to 9. */
  lemma ChecksumTotalUpdate(account: string, x: nat, c: char)
    requires ChecksumDomain(account) && 1 <= x <= 9 && IsDigit(c)
    ensures ChecksumDomain(account[|account| - x := c])
    ensures ChecksumTotal(account[|account| - x := c])
            == ChecksumTotal(account) + x * (DigitValue(c) - DigitValue(account[|account| - x]))
  {
    UpdateDomain(account, x, c);
    WeightedSumUpdate(account, 9, x, c);
  }

  /** 11 is prime and larger than every weight and every digit change. */
  lemma NoMultipleOfEleven(w: int, d: int)
    requires 1 <= w <= 9 && 1 <= d <= 9
    ensures (w * d) % 11 != 0
  {
    assert w == 1 || w == 2 || w == 3 || w == 4 || w == 5 || w == 6 || w == 7 || w == 8 || w == 9;
  }

  /** Totals with the same remainder differ by a multiple of 11. */
  lemma SameRemainder(a: int, b: int)
    requires a % 11 == b % 11
    ensures (a - b) % 11 == 0
  {
    var qa, qb := a / 11, b / 11;
    assert a == 11 * qa + a % 11 && b == 11 * qb + b % 11;
    assert a - b == 11 * (qa - qb);
  }

  /** Moving a total by a weight times a digit change changes its remainder. */
  lemma ShiftChangesRemainder(t: int, t': int, x: int, before: int, after: int)
    requires 1 <= x <= 9 && 0 <= before <= 9 && 0 <= after <= 9 && before != after
    requires t' == t + x * (after - before)
    ensures t' % 11 != t % 11
  {
    if t' % 11 == t % 11 {
      if after > before {
        SameRemainder(t', t);
        NoMultipleOfEleven(x, after - before);
      } else {
        assert t - t' == x * (before - after);
        SameRemainder(t, t');
        NoMultipleOfEleven(x, before - after);
      }
    }
  }

  /** The checksum catches every change of a single digit. */
  lemma ChecksumDetectsOneDigit(account: string, x: nat, c: char)
    requires ChecksumDomain(account) && 1 <= x <= 9 && IsDigit(c)
    requires c != account[|account| - x]
    ensures ChecksumDomain(account[|account| - x := c])
    ensures Checksum(account[|account| - x := c]) != Checksum(account)
  {
    ChecksumTotalUpdate(account, x, c);
    ShiftChangesRemainder(ChecksumTotal(account), ChecksumTotal(account[|account| - x := c]),
                          x, DigitValue(account[|account| - x]), DigitValue(c));
  }

  /** `illegible`: some glyph was not recognised. */
  predicate Illegible(account: string)
  {
    '?' in account
  }

  /** `bad_checksum`, with the global switch as a parameter. */
  predicate BadChecksum(account: string, checksumOn: bool)
    requires checksumOn ==> ChecksumDomain(account)
  {
    checksumOn && Checksum(account) != 0
  }

  /** `account_string`: ILL wins over ERR; a legible account that passes
      (or is not checked) is printed as it is. */
  function AccountString(account: string, checksumOn: bool): (r: string)
    requires checksumOn && !Illegible(account) ==> ChecksumDomain(account)
    ensures Illegible(account) ==> r == account + " ILL"
    ensures !Illegible(account) && BadChecksum(account, checksumOn) ==> r == account + " ERR"
    ensures !Illegible(account) && !BadChecksum(account, checksumOn) ==> r == account
  {
    if Illegible(account) then account + " ILL"
    else if BadChecksum(account, checksumOn) then account + " ERR"
    else account
  }

  /** A decoded account of nine characters is printed with nine characters
      exactly when it is legible and passes the checksum (when checked). */
  lemma AccountStringPasses(account: string, checksumOn: bool)
    requires |account| == 9
    requires checksumOn && !Illegible(account) ==> ChecksumDomain(account)
    ensures |AccountString(account, checksumOn)| == 9 <==> !Illegible(account) && !BadChecksum(account, checksumOn)
  {
  }

  /** The characters `alternate_slugs` tries in a cell, in its order. */
  const Swaps: seq<char> := ['_', '|', ' ']

  /** The first three rows have three characters or more, which is what
      `alternate_slugs` indexes. */
  predicate Shaped(slug: Slug)
  {
    |slug| >= 3 && forall r :: 0 <= r < 3 ==> |slug[r]| >= 3
  }

  /** `slug` with the cell at `row`, `col` set to `swap`. */
  function Corrupt(slug: Slug, row: nat, col: nat, swap: char): (g: Slug)
    requires Shaped(slug) && row < 3 && col < 3
  {
    slug[row := slug[row][col := swap]]
  }

  /** Writing a cell's own character back changes nothing. */
  lemma CorruptSame(slug: Slug, row: nat, col: nat)
    requires Shaped(slug) && row < 3 && col < 3
    ensures Corrupt(slug, row, col, slug[row][col]) == slug
  {
    assert slug[row][col := slug[row][col]] == slug[row];
  }

  /** The `k`-th glyph `alternate_slugs` builds: row `k / 9`, column
      `k / 3 % 3`, replacement `Swaps[k % 3]`. */
  function Candidate(slug: Slug, k: nat): Slug
    requires Shaped(slug) && k < 27
  {
    Corrupt(slug, k / 9, k / 3 % 3, Swaps[k % 3])
  }

  /** A candidate is kept when it is a change and the table reads it
      differently from `digit` (an unknown glyph reads as `None`). */
  predicate Keeps(slug: Slug, digit: Option<char>, g: Slug)
  {
    g != slug && Lookup(g) != digit
  }

  /** The glyphs kept among the first `n` candidates. */
  function AlternatesUpTo(slug: Slug, digit: Option<char>, n: nat): set<Slug>
    requires Shaped(slug) && n <= 27
  {
    set k: nat | k < n && Keeps(slug, digit, Candidate(slug, k)) :: Candidate(slug, k)
  }

  lemma AlternatesUpToStep(slug: Slug, digit: Option<char>, n: nat)
    requires Shaped(slug) && n < 27
    ensures AlternatesUpTo(slug, digit, n + 1)
            == AlternatesUpTo(slug, digit, n) + (if Keeps(slug, digit, Candidate(slug, n)) then {Candidate(slug, n)} else {})
  {
  }

  lemma CandidateIndex(row: nat, col: nat, s: nat)
    requires row < 3 && col < 3 && s < 3
    ensures (9 * row + 3 * col + s) / 9 == row
    ensures (9 * row + 3 * col + s) / 3 % 3 == col
    ensures (9 * row + 3 * col + s) % 3 == s
  {
  }

  /** The candidate of row `row`, column `col` and character `Swaps[s]`
      extends the alternates by itself when kept. */
  lemma CellStep(slug: Slug, digit: Option<char>, row: nat, col: nat, s: nat)
    requires Shaped(slug) && row < 3 && col < 3 && s < 3
    ensures var g := slug[row := slug[row][col := Swaps[s]]];
            AlternatesUpTo(slug, digit, 9 * row + 3 * col + s + 1)
            == AlternatesUpTo(slug, digit, 9 * row + 3 * col + s) + (if g != slug && Lookup(g) != digit then {g} else {})
  {
    CandidateIndex(row, col, s);
    AlternatesUpToStep(slug, digit, 9 * row + 3 * col + s);
  }

  /** `alternate_slugs(slug, digit)`: every glyph one cell away from `slug`
      with a character from `Swaps`, kept when the table reads it
      differently from `digit`. */
  method AlternateSlugs(slug: Slug, digit: Option<char>) returns (result: set<Slug>)
    requires Shaped(slug)
    ensures result == AlternatesUpTo(slug, digit, 27)
  {
    result := {};
    for row := 0 to 3
      invariant result == AlternatesUpTo(slug, digit, 9 * row)
    {
      for col := 0 to 3
        invariant result == AlternatesUpTo(slug, digit, 9 * row + 3 * col)
      {
        for s := 0 to |Swaps|
          invariant result == AlternatesUpTo(slug, digit, 9 * row + 3 * col + s)
        {
          var corrupted := slug[row := slug[row][col := Swaps[s]]];
          CellStep(slug, digit, row, col, s);
          if corrupted != slug && Lookup(corrupted) != digit {
            result := result + {corrupted};
          }
        }
      }
    }
  }

  /** `g` is `slug` with exactly the cell at `row`, `col` replaced by a
      different character from `Swaps`. */
  ghost predicate OneCellEdit(slug: Slug, g: Slug, row: int, col: int)
  {
    && Shaped(slug) && 0 <= row < 3 && 0 <= col < 3
    && |g| == |slug| && |g[row]| == |slug[row]|
    && (forall r :: 0 <= r < |g| && r != row ==> g[r] == slug[r])
    && (forall c :: 0 <= c < |g[row]| && c != col ==> g[row][c] == slug[row][c])
    && g[row][col] in Swaps && g[row][col] != slug[row][col]
  }

  /** The alternates are exactly the one-cell edits that the table reads
      differently from `digit`. */
  lemma AlternatesMeaning(slug: Slug, digit: Option<char>, g: Slug)
    requires Shaped(slug)
    ensures g in AlternatesUpTo(slug, digit, 27)
            <==> (exists row, col :: OneCellEdit(slug, g, row, col)) && Lookup(g) != digit
  {
    if g in AlternatesUpTo(slug, digit, 27) {
      var k: nat :| k < 27 && Keeps(slug, digit, Candidate(slug, k)) && Candidate(slug, k) == g;
      CandidateIsEdit(slug, k);
    }
    if (exists row, col :: OneCellEdit(slug, g, row, col)) && Lookup(g) != digit {
      var row, col :| OneCellEdit(slug, g, row, col);
      var k := EditIsCandidate(slug, g, row, col);
      assert Keeps(slug, digit, Candidate(slug, k));
    }
  }

  /** A candidate that differs from `slug` is a one-cell edit of it. */
  lemma CandidateIsEdit(slug: Slug, k: nat)
    requires Shaped(slug) && k < 27 && Candidate(slug, k) != slug
    ensures OneCellEdit(slug, Candidate(slug, k), k / 9, k / 3 % 3)
  {
    CorruptSame(slug, k / 9, k / 3 % 3);
  }

  /** A one-cell edit is the candidate of its row, column and character,
      and differs from `slug`. */
  lemma EditIsCandidate(slug: Slug, g: Slug, row: int, col: int) returns (k: nat)
    requires OneCellEdit(slug, g, row, col)
    ensures k < 27 && Candidate(slug, k) == g && g != slug
  {
    var s :| 0 <= s < 3 && Swaps[s] == g[row][col];
    k := 9 * row + 3 * col + s;
    CandidateIndex(row, col, s);
    assert g[row] == slug[row][col := g[row][col]];
    assert g[row] != slug[row];
  }

  /** Python's order on strings: character by character, a prefix first. */
  predicate LexLe(a: string, b: string)
  {
    a == [] || (b != [] && (a[0] < b[0] || (a[0] == b[0] && LexLe(a[1..], b[1..]))))
  }

  lemma {:induction false} LexLeTotal(a: string, b: string)
    ensures LexLe(a, b) || LexLe(b, a)
  {
    if a != [] && b != [] && a[0] == b[0] {
      LexLeTotal(a[1..], b[1..]);
    }
  }

  lemma {:induction false} LexLeTransitive(a: string, b: string, c: string)
    requires LexLe(a, b) && LexLe(b, c)
    ensures LexLe(a, c)
  {
    if a != [] && a[0] == b[0] && b[0] == c[0] {
      LexLeTransitive(a[1..], b[1..], c[1..]);
    }
  }

  lemma {:induction false} LexLeAntisymmetric(a: string, b: string)
    requires LexLe(a, b) && LexLe(b, a)
    ensures a == b
  {
    if a != [] {
      LexLeAntisymmetric(a[1..], b[1..]);
      assert a == [a[0]] + a[1..] && b == [b[0]] + b[1..];
    }
  }

  /** `sorted` on strings sorts by a total order, and never ties two
      different strings. */
  lemma LexLeOrder(xs: seq<string>)
    ensures TotalPreorder(LexLe)
    ensures AntisymmetricOn(xs, LexLe)
  {
    forall a, b ensures LexLe(a, b) || LexLe(b, a) {
      LexLeTotal(a, b);
    }
    forall a, b, c | LexLe(a, b) && LexLe(b, c) ensures LexLe(a, c) {
      LexLeTransitive(a, b, c);
    }
    forall a, b | a in xs && b in xs && LexLe(a, b) && LexLe(b, a) ensures a == b {
      LexLeAntisymmetric(a, b);
    }
  }

  function Quoted(s: string): string
  {
    "'" + s + "'"
  }

  function ReprItems(xs: seq<string>): string
  {
    if xs == [] then ""
    else if |xs| == 1 then Quoted(xs[0])
    else Quoted(xs[0]) + ", " + ReprItems(xs[1..])
  }

  /** `repr` of a list of strings that hold no quote or backslash. */
  function ListRepr(xs: seq<string>): string
  {
    "[" + ReprItems(xs) + "]"
  }

  /** The three lines are long enough for nine glyphs. */
  predicate Scannable(lines: seq<string>)
  {
    |lines| >= 3 && forall i :: 0 <= i < 3 ==> |lines[i]| >= 27
  }

  lemma ScannableShaped(lines: seq<string>)
    requires Scannable(lines)
    ensures forall p :: 0 <= p < 9 ==> Shaped(Slugs(lines)[p])
  {
  }

  /** The account printed with nine characters: legible, and passing the
      checksum when it is checked. */
  predicate Passes(account: string, checksumOn: bool)
    requires |account| == 9
    requires checksumOn && !Illegible(account) ==> ChecksumDomain(account)
  {
    |AccountString(account, checksumOn)| == 9
  }

  /** The account read after glyph `i` is replaced by `alt`. */
  function Repaired(slugs: seq<Slug>, i: int, alt: Slug): (r: string)
    requires |slugs| == 9 && 0 <= i < 9
    ensures |r| == 9 && (!Illegible(r) ==> ChecksumDomain(r))
  {
    SlugsToDigits(slugs[i := alt])
  }

  predicate ShapedSlugs(slugs: seq<Slug>)
  {
    |slugs| == 9 && forall p :: 0 <= p < 9 ==> Shaped(slugs[p])
  }

  /** Replacing glyph `i` by the alternate `alt` gives an account that
      passes. */
  ghost predicate ValidRepair(slugs: seq<Slug>, checksumOn: bool, i: int, alt: Slug)
    requires ShapedSlugs(slugs)
  {
    && 0 <= i < 9
    && alt in AlternatesUpTo(slugs[i], Lookup(slugs[i]), 27)
    && Passes(Repaired(slugs, i, alt), checksumOn)
  }

  /** The accounts of the valid repairs at glyphs before `index`, and at
      glyph `index` with an alternate from `done`. */
  ghost predicate RepairedBefore(slugs: seq<Slug>, checksumOn: bool, index: int, done: set<Slug>, a: string)
    requires ShapedSlugs(slugs)
  {
    exists i, alt :: ValidRepair(slugs, checksumOn, i, alt) && (i < index || (i == index && alt in done))
                     && Repaired(slugs, i, alt) == a
  }

  /** Every account one valid repair away. */
  ghost function Repairs(slugs: seq<Slug>, checksumOn: bool): (r: set<string>)
    requires ShapedSlugs(slugs)
    ensures forall a :: a in r <==> RepairedBefore(slugs, checksumOn, 9, {}, a)
  {
    set i, alt | 0 <= i < 9 && alt in AlternatesUpTo(slugs[i], Lookup(slugs[i]), 27)
                 && ValidRepair(slugs, checksumOn, i, alt) :: Repaired(slugs, i, alt)
  }

  /** Two different valid repairs never give the same account: at the same
      glyph two alternates read as different digits, and a repair at glyph
      `i` changes the character read there. */
  lemma RepairsDistinct(slugs: seq<Slug>, checksumOn: bool, i: int, a: Slug, j: int, b: Slug)
    requires ShapedSlugs(slugs)
    requires ValidRepair(slugs, checksumOn, i, a) && ValidRepair(slugs, checksumOn, j, b)
    requires Repaired(slugs, i, a) == Repaired(slugs, j, b)
    ensures i == j && a == b
  {
    DigitsTable();
    AlternatesMeaning(slugs[i], Lookup(slugs[i]), a);
    AlternatesMeaning(slugs[j], Lookup(slugs[j]), b);
    var ra, rb := Repaired(slugs, i, a), Repaired(slugs, j, b);
    assert !Illegible(ra);
    assert ra[i] != '?' && rb[j] != '?';
    assert slugs[i := a][i] == a && slugs[j := b][j] == b;
    assert a in Digits && b in Digits;
  }

  /** `sorted` of a set's elements, whatever order they were listed in. */
  ghost function SetToSeq(s: set<string>): (r: seq<string>)
    ensures NoDup(r) && forall x :: x in r <==> x in s
  {
    if s == {} then []
    else
      var x :| x in s;
      var rest := SetToSeq(s - {x});
      assert forall k :: 0 <= k < |rest| ==> ([x] + rest)[k + 1] == rest[k];
      [x] + rest
  }

  ghost function SortedList(s: set<string>): seq<string>
  {
    SortBy(SetToSeq(s), LexLe)
  }

  function TheElement(s: set<string>): (x: string)
    requires |s| == 1
    ensures s == {x}
  {
    var x :| x in s;
    assert |s - {x}| == 0;
    x
  }

  /** `xs` lists, once each, the accounts of the valid repairs before glyph
      `index` and at glyph `index` with an alternate from `done`. */
  ghost predicate Listed(slugs: seq<Slug>, checksumOn: bool, index: int, done: set<Slug>, xs: seq<string>)
    requires ShapedSlugs(slugs)
  {
    NoDup(xs) && forall a :: a in xs <==> RepairedBefore(slugs, checksumOn, index, done, a)
  }

  lemma RepairedBeforeStep(slugs: seq<Slug>, checksumOn: bool, index: int, done: set<Slug>, alt: Slug)
    requires ShapedSlugs(slugs) && 0 <= index < 9
    ensures forall a :: RepairedBefore(slugs, checksumOn, index, done + {alt}, a)
                        <==> RepairedBefore(slugs, checksumOn, index, done, a)
                             || (ValidRepair(slugs, checksumOn, index, alt) && Repaired(slugs, index, alt) == a)
  {
  }

  lemma ListedNext(slugs: seq<Slug>, checksumOn: bool, index: int, xs: seq<string>)
    requires ShapedSlugs(slugs) && 0 <= index < 9
    requires Listed(slugs, checksumOn, index, AlternatesUpTo(slugs[index], Lookup(slugs[index]), 27), xs)
    ensures Listed(slugs, checksumOn, index + 1, {}, xs)
  {
  }

  /** One more alternate at glyph `index`: its account joins the list when
      it passes, and the list stays free of duplicates. */
  lemma ListStep(slugs: seq<Slug>, checksumOn: bool, index: int, done: set<Slug>, alt: Slug, alternates: seq<string>)
    requires ShapedSlugs(slugs) && 0 <= index < 9 && alt !in done
    requires alt in AlternatesUpTo(slugs[index], Lookup(slugs[index]), 27)
    requires Listed(slugs, checksumOn, index, done, alternates)
    ensures var account := Repaired(slugs, index, alt);
            Listed(slugs, checksumOn, index, done + {alt},
                   if |AccountString(account, checksumOn)| == 9 then alternates + [account] else alternates)
  {
    RepairedBeforeStep(slugs, checksumOn, index, done, alt);
    if ValidRepair(slugs, checksumOn, index, alt) {
      NewRepair(slugs, checksumOn, index, done, alt);
      NoDupAppend(alternates, Repaired(slugs, index, alt));
    }
  }

  /** A repair not seen yet gives an account not listed yet. */
  lemma NewRepair(slugs: seq<Slug>, checksumOn: bool, index: int, done: set<Slug>, alt: Slug)
    requires ShapedSlugs(slugs) && ValidRepair(slugs, checksumOn, index, alt) && alt !in done
    ensures !RepairedBefore(slugs, checksumOn, index, done, Repaired(slugs, index, alt))
  {
    if RepairedBefore(slugs, checksumOn, index, done, Repaired(slugs, index, alt)) {
      var i, b :| ValidRepair(slugs, checksumOn, i, b) && (i < index || (i == index && b in done))
                  && Repaired(slugs, i, b) == Repaired(slugs, index, alt);
      RepairsDistinct(slugs, checksumOn, i, b, index, alt);
    }
  }

  /** What `account_output` prints for the scanned lines: the account when
      it reads and passes; otherwise the only repair when there is exactly
      one, the annotated account when there is none, and the account marked
      AMB with the repairs in ascending order when there are several. */
  ghost function AccountOutputSpec(lines: seq<string>, checksumOn: bool): string
    requires Scannable(lines)
  {
    ScannableShaped(lines);
    var slugs := Slugs(lines);
    var account := SlugsToDigits(slugs);
    var str := AccountString(account, checksumOn);
    if |str| == 9 then str
    else
      var repairs := Repairs(slugs, checksumOn);
      if |repairs| == 1 then TheElement(repairs)
      else if |repairs| == 0 then str
      else account + " AMB " + ListRepr(SortedList(repairs))
  }

  /** Sorting the repairs in the order they were found gives the sorted
      list of the set. */
  lemma SortedRepairs(xs: seq<string>, s: set<string>)
    requires NoDup(xs) && forall x :: x in xs <==> x in s
    ensures SortBy(xs, LexLe) == SortedList(s)
  {
    var t := SetToSeq(s);
    LexLeOrder(SortBy(xs, LexLe));
    SortBySorted(xs, LexLe);
    SortBySorted(t, LexLe);
    NoDupSameElements(xs, t);
    SortedUnique(SortBy(xs, LexLe), SortBy(t, LexLe), LexLe);
  }

  /** Once every repair is listed once, the decision on the list's length
      is the decision on the number of repairs. */
  lemma OutputFromList(lines: seq<string>, checksumOn: bool, alternates: seq<string>)
    requires Scannable(lines)
    requires ShapedSlugs(Slugs(lines))
    requires |AccountString(SlugsToDigits(Slugs(lines)), checksumOn)| != 9
    requires Listed(Slugs(lines), checksumOn, 9, {}, alternates)
    ensures AccountOutputSpec(lines, checksumOn)
            == if |alternates| == 1 then alternates[0]
               else if |alternates| == 0 then AccountString(SlugsToDigits(Slugs(lines)), checksumOn)
               else SlugsToDigits(Slugs(lines)) + " AMB " + ListRepr(SortBy(alternates, LexLe))
  {
    var slugs := Slugs(lines);
    var account := SlugsToDigits(slugs);
    var repairs := Repairs(slugs, checksumOn);
    assert AccountOutputSpec(lines, checksumOn)
           == if |repairs| == 1 then TheElement(repairs)
              else if |repairs| == 0 then AccountString(account, checksumOn)
              else account + " AMB " + ListRepr(SortedList(repairs));
    ListedRepairs(alternates, repairs);
  }

  lemma ListedRepairs(alternates: seq<string>, repairs: set<string>)
    requires NoDup(alternates) && forall a :: a in alternates <==> a in repairs
    ensures |alternates| == |repairs|
    ensures |repairs| == 1 ==> alternates[0] == TheElement(repairs)
    ensures |repairs| > 1 ==> SortBy(alternates, LexLe) == SortedList(repairs)
  {
    NoDupCard(alternates, repairs);
    if |alternates| == 1 {
      assert alternates[0] in repairs;
    } else if |alternates| > 1 {
      SortedRepairs(alternates, repairs);
    }
  }

  /** `account_output(account_lines)`. */
  method AccountOutput(lines: seq<string>, checksumOn: bool) returns (out: string)
    requires Scannable(lines)
    ensures out == AccountOutputSpec(lines, checksumOn)
  {
    ScannableShaped(lines);
    var originalSlugs := Slugs(lines);
    var account := SlugsToDigits(originalSlugs);
    var str := AccountString(account, checksumOn);
    if |str| != 9 {
      var alternates: seq<string> := [];
      for index := 0 to 9
        invariant Listed(originalSlugs, checksumOn, index, {}, alternates)
      {
        alternates := RepairsAt(originalSlugs, checksumOn, index, alternates);
      }
      OutputFromList(lines, checksumOn, alternates);
      if |alternates| == 1 {
        return alternates[0];
      } else if |alternates| == 0 {
        return str;
      } else {
        return account + " AMB " + ListRepr(SortBy(alternates, LexLe));
      }
    }
    out := str;
  }

  /** One turn of the inner loop of `account_output`: the account read
      with glyph `index` replaced by `alt` is appended when it passes. */
  method TryAlternate(originalSlugs: seq<Slug>, checksumOn: bool, index: int, alt: Slug, alternates: seq<string>,
                      ghost done: set<Slug>) returns (r: seq<string>)
    requires ShapedSlugs(originalSlugs) && 0 <= index < 9 && alt !in done
    requires alt in AlternatesUpTo(originalSlugs[index], Lookup(originalSlugs[index]), 27)
    requires Listed(originalSlugs, checksumOn, index, done, alternates)
    ensures Listed(originalSlugs, checksumOn, index, done + {alt}, r)
    ensures r == alternates || r == alternates + [Repaired(originalSlugs, index, alt)]
  {
    var alternateAccount := SlugsToDigits(originalSlugs[index := alt]);
    var alternateString := AccountString(alternateAccount, checksumOn);
    ListStep(originalSlugs, checksumOn, index, done, alt, alternates);
    r := alternates;
    if |alternateString| == 9 {
      r := r + [alternateAccount];
    }
  }

  /** The inner loop of `account_output`: appends the accounts of the
      alternates of glyph `index` that pass, in the order the set of
      alternates is walked. */
  method RepairsAt(originalSlugs: seq<Slug>, checksumOn: bool, index: int, alternates: seq<string>) returns (r: seq<string>)
    requires ShapedSlugs(originalSlugs) && 0 <= index < 9
    requires Listed(originalSlugs, checksumOn, index, {}, alternates)
    ensures Listed(originalSlugs, checksumOn, index + 1, {}, r)
  {
    r := alternates;
    var slug := originalSlugs[index];
    var alts := AlternateSlugs(slug, Lookup(slug));
    ghost var all := alts;
    ghost var done: set<Slug> := {};
    while alts != {}
      invariant alts <= all && done == all - alts
      invariant Listed(originalSlugs, checksumOn, index, done, r)
      decreases |alts|
    {
      var alt :| alt in alts;
      r := TryAlternate(originalSlugs, checksumOn, index, alt, r, done);
      alts := alts - {alt};
      done := done + {alt};
    }
    ListedNext(originalSlugs, checksumOn, index, r);
  }

  /** A valid repair changes the character read at its glyph, and only
      there. */
  lemma RepairOneDigit(slugs: seq<Slug>, checksumOn: bool, i: int, alt: Slug)
    requires ShapedSlugs(slugs) && ValidRepair(slugs, checksumOn, i, alt)
    ensures var account, repaired := SlugsToDigits(slugs), Repaired(slugs, i, alt);
            && repaired[i] != account[i] && IsDigit(repaired[i])
            && (forall j :: 0 <= j < 9 && j != i ==> repaired[j] == account[j])
  {
    AlternatesMeaning(slugs[i], Lookup(slugs[i]), alt);
    var repaired := Repaired(slugs, i, alt);
    assert slugs[i := alt][i] == alt;
    assert repaired[i] != '?';
  }

  /** Every repair is an account that passes, one digit away from the
      account read. */
  lemma RepairsMeaning(slugs: seq<Slug>, checksumOn: bool, a: string)
    requires ShapedSlugs(slugs) && a in Repairs(slugs, checksumOn)
    ensures |a| == 9 && (checksumOn && !Illegible(a) ==> ChecksumDomain(a))
    ensures |AccountString(a, checksumOn)| == 9
    ensures exists i :: 0 <= i < 9 && a[i] != SlugsToDigits(slugs)[i]
                        && forall j :: 0 <= j < 9 && j != i ==> a[j] == SlugsToDigits(slugs)[j]
  {
    var i, alt :| ValidRepair(slugs, checksumOn, i, alt) && Repaired(slugs, i, alt) == a;
    RepairOneDigit(slugs, checksumOn, i, alt);
  }

  /** With exactly one repair, `account_output` prints an account that
      passes and differs from the account read in one digit. */
  lemma SingleRepairOutput(lines: seq<string>, checksumOn: bool)
    requires Scannable(lines)
    ensures var out, slugs := AccountOutputSpec(lines, checksumOn), Slugs(lines);
            ShapedSlugs(slugs) && |AccountString(SlugsToDigits(slugs), checksumOn)| != 9
            && |Repairs(slugs, checksumOn)| == 1 ==>
              |out| == 9 && (checksumOn && !Illegible(out) ==> ChecksumDomain(out))
              && |AccountString(out, checksumOn)| == 9
              && exists i :: 0 <= i < 9 && out[i] != SlugsToDigits(slugs)[i]
                             && forall j :: 0 <= j < 9 && j != i ==> out[j] == SlugsToDigits(slugs)[j]
  {
    ScannableShaped(lines);
    var slugs := Slugs(lines);
    if |AccountString(SlugsToDigits(slugs), checksumOn)| != 9 && |Repairs(slugs, checksumOn)| == 1 {
      var out := AccountOutputSpec(lines, checksumOn);
      assert out == TheElement(Repairs(slugs, checksumOn));
      RepairsMeaning(slugs, checksumOn, out);
    }
  }

  /** The AMB list names every repair once, in ascending order. */
  lemma SortedListMeaning(s: set<string>)
    ensures var xs := SortedList(s);
            Sorted(xs, LexLe) && NoDup(xs) && |xs| == |s| && forall a :: a in xs <==> a in s
  {
    var t := SetToSeq(s);
    var xs := SortedList(s);
    LexLeOrder(xs);
    SortBySorted(t, LexLe);
    NoDupCount(t);
    NoDupCount(xs);
    forall a ensures a in xs <==> a in s {
      MultisetMember(a, xs, t);
    }
    NoDupCard(xs, s);
  }

  /** Nine digits drawn as glyphs are read back as they are when they pass
      (or the checksum is off): no repair is attempted. */
  lemma RenderedOutput(ds: string, checksumOn: bool)
    requires |ds| == 9 && forall i :: 0 <= i < 9 ==> IsDigit(ds[i])
    requires checksumOn ==> ChecksumDomain(ds) && Checksum(ds) == 0
    ensures Scannable(Render(ds)) && AccountOutputSpec(Render(ds), checksumOn) == ds
  {
    RenderRoundTrip(ds);
  }
}
