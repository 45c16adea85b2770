/**
 * `CageTable` of src/data/cage_table.rs: the table of digit combinations per
 * cage size and target sum, read from the lines of a text file, and the
 * first-match lookup in it.  The file read itself is not modelled: the
 * parser starts from the file's lines.
 */
module CageTables {
  import opened Wrappers

  /** `TableItem`: one entry, for one cage size and one target sum. */
  datatype TableItem = TableItem(cageSize: int, cageSum: int, combinations: seq<seq<nat>>)

  /** `CageTable(Vec<TableItem>)` */
  datatype CageTable = CageTable(items: seq<TableItem>)

  /** Where the source panics in `temp_sum.parse::<i32>().unwrap()`: the text that would not parse. */
  datatype LoadError = BadSum(text: string)

  // ---------------------------------------------------------------------
  // Characters and tokens
  // ---------------------------------------------------------------------

  /** Rust's `char::is_whitespace`: the Unicode White_Space property. */
  predicate IsWhitespace(c: char) {
    ('\U{9}' <= c <= '\U{D}') || c == ' ' || c == '\U{85}' || c == '\U{A0}' || c == '\U{1680}'
    || ('\U{2000}' <= c <= '\U{200A}') || c == '\U{2028}' || c == '\U{2029}'
    || c == '\U{202F}' || c == '\U{205F}' || c == '\U{3000}'
  }

  /** A token of `split_whitespace`: not empty, no whitespace in it. */
  predicate IsWord(w: string) {
    |w| > 0 && NoWhitespace(w)
  }

  predicate NoWhitespace(w: string) {
    forall i :: 0 <= i < |w| ==> !IsWhitespace(w[i])
  }

  /** The characters of `s` that are not whitespace, in order. */
  function NonWhite(s: string): string {
    if s == [] then []
    else (if IsWhitespace(s[0]) then [] else [s[0]]) + NonWhite(s[1..])
  }

  function Concat(ws: seq<string>): string {
    if ws == [] then [] else ws[0] + Concat(ws[1..])
  }

  /** The words joined by single spaces. */
  function Join(ws: seq<string>): string {
    if |ws| == 0 then []
    else if |ws| == 1 then ws[0]
    else ws[0] + " " + Join(ws[1..])
  }

  /** Scanning `s` with the unfinished word `cur` in hand. */
  function Split(s: string, cur: string): seq<string>
    decreases |s|
  {
    if s == [] then (if cur == [] then [] else [cur])
    else if IsWhitespace(s[0]) then (if cur == [] then [] else [cur]) + Split(s[1..], [])
    else Split(s[1..], cur + [s[0]])
  }

  /**
   * `line.split_whitespace()`: the maximal runs of non-whitespace
   * characters.  Each is a word, and together they hold exactly the
   * non-whitespace characters of the line.
   */
  function Tokens(s: string): (toks: seq<string>)
    ensures forall k :: 0 <= k < |toks| ==> IsWord(toks[k])
    ensures Concat(toks) == NonWhite(s)
  {
    SplitWords(s, []);
    Split(s, [])
  }

  lemma {:induction false} SplitWords(s: string, cur: string)
    requires NoWhitespace(cur)
    ensures forall k :: 0 <= k < |Split(s, cur)| ==> IsWord(Split(s, cur)[k])
    ensures Concat(Split(s, cur)) == cur + NonWhite(s)
    decreases |s|
  {
    if s == [] {
      assert Concat([cur]) == cur + Concat([]);
    } else if IsWhitespace(s[0]) {
      SplitWords(s[1..], []);
      var rest := Split(s[1..], []);
      if cur == [] {
        assert Split(s, cur) == rest;
      } else {
        assert Split(s, cur) == [cur] + rest;
        assert ([cur] + rest)[1..] == rest;
      }
    } else {
      SplitWords(s[1..], cur + [s[0]]);
    }
  }

  /** A run of non-whitespace characters goes into the word in hand as a whole. */
  lemma {:induction false} SplitThroughWord(w: string, rest: string, cur: string)
    requires NoWhitespace(w)
    ensures Split(w + rest, cur) == Split(rest, cur + w)
    decreases |w|
  {
    if w != [] {
      assert (w + rest)[0] == w[0] && (w + rest)[1..] == w[1..] + rest;
      assert !IsWhitespace(w[0]);
      assert Split(w + rest, cur) == Split(w[1..] + rest, cur + [w[0]]);
      assert NoWhitespace(w[1..]) by {
        forall i | 0 <= i < |w[1..]|
          ensures !IsWhitespace(w[1..][i])
        {
          assert w[1..][i] == w[i + 1];
        }
      }
      SplitThroughWord(w[1..], rest, cur + [w[0]]);
      assert cur + [w[0]] + w[1..] == cur + w;
    } else {
      assert w + rest == rest && cur + w == cur;
    }
  }

  /** `split_whitespace` undoes joining words with single spaces. */
  lemma {:induction false} TokensOfJoin(ws: seq<string>)
    requires forall k :: 0 <= k < |ws| ==> IsWord(ws[k])
    ensures Tokens(Join(ws)) == ws
    decreases |ws|
  {
    if |ws| == 1 {
      SplitThroughWord(ws[0], [], []);
      assert ws[0] + [] == ws[0];
    } else if |ws| > 1 {
      var tail := " " + Join(ws[1..]);
      assert Join(ws) == ws[0] + tail;
      SplitThroughWord(ws[0], tail, []);
      assert tail[0] == ' ' && tail[1..] == Join(ws[1..]);
      assert [] + ws[0] == ws[0];
      assert Split(tail, ws[0]) == [ws[0]] + Split(Join(ws[1..]), []);
      TokensOfJoin(ws[1..]);
      assert ws == [ws[0]] + ws[1..];
    }
  }

  /** Whitespace only, possibly nothing. */
  predicate AllWhite(p: string) {
    forall i :: 0 <= i < |p| ==> IsWhitespace(p[i])
  }

  /** `pads[0] ws[0] pads[1] ws[1] ... ws[n - 1] pads[n]`: words with runs of padding around and between them. */
  function Layout(pads: seq<string>, ws: seq<string>): string
    requires |pads| == |ws| + 1
    decreases |ws|
  {
    if ws == [] then pads[0] else pads[0] + ws[0] + Layout(pads[1..], ws[1..])
  }

  /** Every pad is whitespace, every word is a word, and a pad between two words is not empty. */
  predicate GoodLayout(pads: seq<string>, ws: seq<string>) {
    && |pads| == |ws| + 1
    && (forall k :: 0 <= k < |ws| ==> IsWord(ws[k]))
    && (forall k :: 0 <= k < |pads| ==> AllWhite(pads[k]))
    && (forall k :: 0 < k < |ws| ==> pads[k] != [])
  }

  /** Leading whitespace yields no token. */
  lemma {:induction false} SkipWhite(p: string, s: string)
    requires AllWhite(p)
    ensures Split(p + s, []) == Split(s, [])
    decreases |p|
  {
    if p != [] {
      assert (p + s)[0] == p[0] && (p + s)[1..] == p[1..] + s;
      assert AllWhite(p[1..]) by {
        forall i | 0 <= i < |p[1..]|
          ensures IsWhitespace(p[1..][i])
        {
          assert p[1..][i] == p[i + 1];
        }
      }
      SkipWhite(p[1..], s);
    } else {
      assert p + s == s;
    }
  }

  /** Whitespace ends the word in hand, and nothing follows it. */
  lemma EndWord(p: string, cur: string)
    requires AllWhite(p) && cur != []
    ensures Split(p, cur) == [cur]
  {
    if p != [] {
      assert IsWhitespace(p[0]);
      assert AllWhite(p[1..]) by {
        forall i | 0 <= i < |p[1..]|
          ensures IsWhitespace(p[1..][i])
        {
          assert p[1..][i] == p[i + 1];
        }
      }
      SkipWhite(p[1..], []);
      assert p[1..] + [] == p[1..];
    }
  }

  /** A whitespace character closes the word in hand. */
  lemma CutWord(s: string, cur: string)
    requires |s| > 0 && IsWhitespace(s[0]) && cur != []
    ensures Split(s, cur) == [cur] + Split(s, [])
  {
  }

  /**
   * `split_whitespace` gives back exactly the words of any layout: it cuts at
   * every run of whitespace, however long, and drops the whitespace before
   * the first word and after the last.
   */
  lemma {:induction false} TokensOfLayout(pads: seq<string>, ws: seq<string>)
    requires GoodLayout(pads, ws)
    ensures Tokens(Layout(pads, ws)) == ws
    decreases |ws|
  {
    if ws == [] {
      SkipWhite(pads[0], []);
      assert pads[0] + [] == pads[0];
    } else {
      var rest := Layout(pads[1..], ws[1..]);
      assert Layout(pads, ws) == pads[0] + (ws[0] + rest);
      SkipWhite(pads[0], ws[0] + rest);
      SplitThroughWord(ws[0], rest, []);
      assert [] + ws[0] == ws[0];
      if |ws| == 1 {
        assert rest == pads[1];
        EndWord(pads[1], ws[0]);
      } else {
        assert pads[1..][0] == pads[1] && pads[1] != [];
        assert rest == pads[1] + ws[1] + Layout(pads[2..], ws[2..]);
        assert IsWhitespace(rest[0]);
        CutWord(rest, ws[0]);
        assert GoodLayout(pads[1..], ws[1..]) by {
          forall k | 0 <= k < |ws[1..]|
            ensures IsWord(ws[1..][k])
          {
            assert ws[1..][k] == ws[k + 1];
          }
          forall k | 0 <= k < |pads[1..]|
            ensures AllWhite(pads[1..][k])
          {
            assert pads[1..][k] == pads[k + 1];
          }
          forall k | 0 < k < |ws[1..]|
            ensures pads[1..][k] != []
          {
            assert pads[1..][k] == pads[k + 1];
          }
        }
        TokensOfLayout(pads[1..], ws[1..]);
      }
      assert ws == [ws[0]] + ws[1..];
    }
  }

  lemma {:induction false} NonWhiteHas(s: string, c: char)
    requires c in s && !IsWhitespace(c)
    ensures c in NonWhite(s)
  {
    if s[0] != c {
      assert c in s[1..];
      NonWhiteHas(s[1..], c);
    }
  }

  lemma {:induction false} ConcatEmpty(ws: seq<string>)
    requires Concat(ws) != []
    ensures ws != []
  {
  }

  /** A line holding a colon has at least one token, so `split.remove(0)` cannot panic. */
  lemma ColonGivesToken(line: string)
    requires ':' in line
    ensures |Tokens(line)| > 0
  {
    NonWhiteHas(line, ':');
    ConcatEmpty(Tokens(line));
  }

  /** `line.ends_with(suffix)` */
  predicate EndsWith(s: string, suffix: string) {
    |suffix| <= |s| && s[|s| - |suffix|..] == suffix
  }

  // ---------------------------------------------------------------------
  // `str::parse::<i32>`
  // ---------------------------------------------------------------------

  const I32Min: int := -0x8000_0000
  const I32Max: int := 0x7FFF_FFFF

  predicate IsDigitChar(c: char) {
    '0' <= c <= '9'
  }

  predicate AllDigits(s: string) {
    forall i :: 0 <= i < |s| ==> IsDigitChar(s[i])
  }

  function DigitValue(c: char): nat
    requires IsDigitChar(c)
  {
    (c as int) - ('0' as int)
  }

  function DigitChar(d: nat): char
    requires d < 10
  {
    (('0' as int) + d) as char
  }

  /** The number written by a string of decimal digits. */
  function DecimalValue(s: string): nat
    requires AllDigits(s)
  {
    if s == [] then 0 else DecimalValue(s[..|s| - 1]) * 10 + DigitValue(s[|s| - 1])
  }

  /**
   * `s.parse::<i32>()`: an optional `+` or `-`, then one or more ASCII
   * digits (leading zeros allowed), whose value must fit in 32 bits.
   */
  function ParseI32(s: string): (r: Option<int>)
    ensures r.Some? ==> I32Min <= r.value <= I32Max
  {
    if s == [] then None
    else
      var negative := s[0] == '-';
      var body := if s[0] == '-' || s[0] == '+' then s[1..] else s;
      if body == [] || !AllDigits(body) then None
      else
        var value: int := DecimalValue(body);
        var n := if negative then -value else value;
        if I32Min <= n <= I32Max then Some(n) else None
  }

  /** Decimal digits of a natural number, most significant first, no leading zeros. */
  function NatString(n: nat): (s: string)
    ensures |s| > 0 && AllDigits(s)
  {
    if n < 10 then [DigitChar(n)] else NatString(n / 10) + [DigitChar(n % 10)]
  }

  /** `i32::to_string`. */
  function IntString(n: int): string {
    if n < 0 then "-" + NatString(-n) else NatString(n)
  }

  lemma {:induction false} NatStringValue(n: nat)
    ensures DecimalValue(NatString(n)) == n
  {
    var s := NatString(n);
    if n >= 10 {
      NatStringValue(n / 10);
      assert s[..|s| - 1] == NatString(n / 10);
    }
  }

  /** Parsing undoes printing, for every 32-bit value. */
  lemma ParseOfString(n: int)
    requires I32Min <= n <= I32Max
    ensures ParseI32(IntString(n)) == Some(n)
  {
    if n < 0 {
      NatStringValue(-n);
      assert IntString(n)[1..] == NatString(-n);
    } else {
      NatStringValue(n);
      var s := NatString(n);
      assert IsDigitChar(s[0]);
    }
  }

  /**
   * The value `parse::<i32>` gives for one or more digits: their decimal
   * value when it fits in 32 bits, a failure when it does not.  Leading
   * zeros are accepted.
   */
  lemma ParseValue(d: string)
    requires |d| > 0 && AllDigits(d)
    ensures ParseI32(d) == if DecimalValue(d) <= I32Max then Some(DecimalValue(d) as int) else None
  {
    assert IsDigitChar(d[0]);
  }

  /** The same after a sign: `+` keeps the value, `-` negates it, and the result must fit in 32 bits. */
  lemma ParseSignedValue(s: string)
    requires |s| > 1 && (s[0] == '+' || s[0] == '-') && AllDigits(s[1..])
    ensures ParseI32(s) ==
      var v: int := if s[0] == '-' then -(DecimalValue(s[1..]) as int) else DecimalValue(s[1..]);
      if I32Min <= v <= I32Max then Some(v) else None
  {
  }

  /** A leading zero does not change the value of a string of digits. */
  lemma {:induction false} LeadingZero(d: string)
    requires AllDigits(d)
    ensures AllDigits("0" + d) && DecimalValue("0" + d) == DecimalValue(d)
    decreases |d|
  {
    var z := "0" + d;
    assert AllDigits(z) by {
      forall i | 0 <= i < |z| ensures IsDigitChar(z[i]) {
        if i > 0 {
          assert z[i] == d[i - 1];
        }
      }
    }
    if d == [] {
      assert z[..0] == [];
    } else {
      var front := d[..|d| - 1];
      assert AllDigits(front) by {
        forall i | 0 <= i < |front| ensures IsDigitChar(front[i]) {
          assert front[i] == d[i];
        }
      }
      LeadingZero(front);
      assert z[..|z| - 1] == "0" + front && z[|z| - 1] == d[|d| - 1];
    }
  }

  /** Decimal text of a value outside the 32-bit range does not parse: loading stops there. */
  lemma ParseOutOfRange(n: int)
    requires n < I32Min || I32Max < n
    ensures ParseI32(IntString(n)) == None
  {
    if n < 0 {
      NatStringValue(-n);
      assert IntString(n)[1..] == NatString(-n);
      ParseSignedValue(IntString(n));
    } else {
      NatStringValue(n);
      ParseValue(NatString(n));
    }
  }

  /** A `+` sign and leading zeros are accepted: `"+5"` and `"007"` parse. */
  lemma ParseExamples()
    ensures ParseI32("+5") == Some(5)
    ensures ParseI32("007") == Some(7)
  {
    assert DecimalValue("5") == 5 by {
      assert "5"[..0] == [];
    }
    assert "+5"[1..] == "5";
    ParseSignedValue("+5");
    assert DecimalValue("7") == 7 by {
      assert "7"[..0] == [];
    }
    LeadingZero("7");
    LeadingZero("07");
    assert "0" + "7" == "07" && "0" + "07" == "007";
    ParseValue("007");
  }

  /** What does not parse: a lone sign, and any non-digit after the optional sign. */
  lemma ParseRejects(s: string, i: nat)
    requires i < |s| && !IsDigitChar(s[i]) && (i > 0 || (s[0] != '+' && s[0] != '-') || |s| == 1)
    ensures ParseI32(s) == None
  {
    if s[0] == '-' || s[0] == '+' {
      if i > 0 {
        assert s[1..][i - 1] == s[i];
      }
    }
  }

  // ---------------------------------------------------------------------
  // One entry line
  // ---------------------------------------------------------------------

  /** `chars().filter(is_digit(10)).map(to_digit(10))`: the decimal digits of a token, in order. */
  function DigitsOf(t: string): (ds: seq<nat>)
    ensures |ds| <= |t|
    ensures forall k :: 0 <= k < |ds| ==> ds[k] < 10
  {
    if t == [] then []
    else (if IsDigitChar(t[0]) then [DigitValue(t[0])] else []) + DigitsOf(t[1..])
  }

  /** The word written by a list of digits. */
  function DigitWord(ds: seq<nat>): string
    requires forall k :: 0 <= k < |ds| ==> ds[k] < 10
  {
    if ds == [] then [] else [DigitChar(ds[0])] + DigitWord(ds[1..])
  }

  /** Reading a combination back from its digits gives the same digits. */
  lemma {:induction false} DigitsOfWord(ds: seq<nat>)
    requires forall k :: 0 <= k < |ds| ==> ds[k] < 10
    ensures DigitsOf(DigitWord(ds)) == ds
  {
    if ds != [] {
      var w := DigitWord(ds);
      assert w[1..] == DigitWord(ds[1..]);
      DigitsOfWord(ds[1..]);
    }
  }

  /** Characters other than digits inside a token are dropped. */
  lemma {:induction false} DigitsOfDropsOthers(a: string, c: char, b: string)
    requires !IsDigitChar(c)
    ensures DigitsOf(a + [c] + b) == DigitsOf(a + b)
  {
    if a == [] {
      assert ([c] + b)[1..] == b;
      assert a + [c] + b == [c] + b && a + b == b;
    } else {
      assert (a + [c] + b)[0] == a[0] && (a + [c] + b)[1..] == a[1..] + [c] + b;
      assert (a + b)[0] == a[0] && (a + b)[1..] == a[1..] + b;
      DigitsOfDropsOthers(a[1..], c, b);
    }
  }

  /** One combination per token. */
  function Combinations(toks: seq<string>): (cs: seq<seq<nat>>)
    ensures |cs| == |toks|
    ensures forall k :: 0 <= k < |toks| ==> cs[k] == DigitsOf(toks[k])
  {
    if toks == [] then [] else [DigitsOf(toks[0])] + Combinations(toks[1..])
  }

  /** The first token with its last character (the colon) popped. */
  function SumText(line: string): string
    requires ':' in line
  {
    ColonGivesToken(line);
    var first := Tokens(line)[0];
    first[..|first| - 1]
  }

  /**
   * The entry an entry line yields for the current cage size: the sum
   * parsed from the first token, one combination per further token.
   */
  function Entry(line: string, size: int): (r: Result<TableItem, LoadError>)
    requires ':' in line
    ensures r.Ok? <==> ParseI32(SumText(line)).Some?
    ensures r.Err? ==> r.error == BadSum(SumText(line))
    ensures r.Ok? ==> r.value.cageSize == size && r.value.cageSum == ParseI32(SumText(line)).value
    ensures r.Ok? ==> |r.value.combinations| == |Tokens(line)| - 1
    ensures r.Ok? ==> r.value.combinations == Combinations(Tokens(line)[1..])
  {
    ColonGivesToken(line);
    var toks := Tokens(line);
    match ParseI32(SumText(line))
    case None => Err(BadSum(SumText(line)))
    case Some(sum) => Ok(TableItem(size, sum, Combinations(toks[1..])))
  }

  /** The body of the `else if line.contains(':')` branch. */
  method ParseEntry(line: string, cageSize: int) returns (r: Result<TableItem, LoadError>)
    requires ':' in line
    ensures r == Entry(line, cageSize)
  {
    ColonGivesToken(line);
    var split := Tokens(line);
    var tempSum := split[0];
    split := split[1..];
    tempSum := tempSum[..|tempSum| - 1];
    var cageSum := ParseI32(tempSum);
    if cageSum.None? {
      return Err(BadSum(tempSum));
    }
    var combinations: seq<seq<nat>> := [];
    for k := 0 to |split|
      invariant |combinations| == k
      invariant forall i :: 0 <= i < k ==> combinations[i] == DigitsOf(split[i])
    {
      combinations := combinations + [DigitsOf(split[k])];
    }
    assert combinations == Combinations(split);
    return Ok(TableItem(cageSize, cageSum.value, combinations));
  }

  // ---------------------------------------------------------------------
  // The whole file
  // ---------------------------------------------------------------------

  predicate IsHeader(line: string) {
    EndsWith(line, "cells")
  }

  /** The lines still to read, with the cage size counted so far and the entries so far. */
  function LoadFrom(lines: seq<string>, size: int, items: seq<TableItem>): Result<CageTable, LoadError>
    decreases |lines|
  {
    if lines == [] then Ok(CageTable(items))
    else
      var line := lines[0];
      if IsHeader(line) then LoadFrom(lines[1..], size + 1, items)
      else if ':' in line then
        match Entry(line, size)
        case Err(e) => Err(e)
        case Ok(item) => LoadFrom(lines[1..], size, items + [item])
      else LoadFrom(lines[1..], size, items)
  }

  /** `CageTable::from_file` on the file's lines. */
  function Load(lines: seq<string>): Result<CageTable, LoadError> {
    LoadFrom(lines, 0, [])
  }

  /** How many of the lines are headers (end in "cells"). */
  function HeaderCount(lines: seq<string>): (n: nat)
    ensures n <= |lines|
  {
    if lines == [] then 0 else (if IsHeader(lines[0]) then 1 else 0) + HeaderCount(lines[1..])
  }

  lemma {:induction false} HeaderCountAppend(lines: seq<string>, line: string)
    ensures HeaderCount(lines + [line]) == HeaderCount(lines) + if IsHeader(line) then 1 else 0
  {
    if lines != [] {
      assert (lines + [line])[1..] == lines[1..] + [line];
      HeaderCountAppend(lines[1..], line);
    } else {
      assert ([] + [line])[1..] == [];
    }
  }

  /** The effect of one more line on a table read so far. */
  function AddLine(t: Result<CageTable, LoadError>, size: int, line: string): Result<CageTable, LoadError> {
    if t.Err? || IsHeader(line) || ':' !in line then t
    else
      match Entry(line, size)
      case Err(e) => Err(e)
      case Ok(item) => Ok(CageTable(t.value.items + [item]))
  }

  lemma {:induction false} LoadFromAppend(lines: seq<string>, line: string, size: int, items: seq<TableItem>)
    ensures LoadFrom(lines + [line], size, items) == AddLine(LoadFrom(lines, size, items), size + HeaderCount(lines), line)
    decreases |lines|
  {
    if lines == [] {
      assert [] + [line] == [line];
      assert [line][1..] == [];
    } else {
      var a := lines[0];
      assert (lines + [line])[0] == a && (lines + [line])[1..] == lines[1..] + [line];
      if IsHeader(a) {
        LoadFromAppend(lines[1..], line, size + 1, items);
      } else if ':' in a {
        match Entry(a, size)
        case Err(e) =>
        case Ok(item) => LoadFromAppend(lines[1..], line, size, items + [item]);
      } else {
        LoadFromAppend(lines[1..], line, size, items);
      }
    }
  }

  /**
   * Reading one more line: a header (even one holding a colon) and a line
   * with neither feature leave the table as it is; an entry line appends
   * its entry, with the number of headers before it as its cage size, or
   * aborts the load; after an abort nothing is read.
   */
  lemma LoadAppend(lines: seq<string>, line: string)
    ensures Load(lines + [line]) == AddLine(Load(lines), HeaderCount(lines), line)
  {
    LoadFromAppend(lines, line, 0, []);
  }

  /**
   * Cage sizes only grow: the entries come out ordered by cage size, none
   * larger than the number of headers read.
   */
  lemma {:induction false} LoadSizes(lines: seq<string>)
    requires Load(lines).Ok?
    ensures var items := Load(lines).value.items;
      && (forall k :: 0 <= k < |items| ==> 0 <= items[k].cageSize <= HeaderCount(lines))
      && (forall j, k :: 0 <= j < k < |items| ==> items[j].cageSize <= items[k].cageSize)
    decreases |lines|
  {
    if lines != [] {
      var init := lines[..|lines| - 1];
      var last := lines[|lines| - 1];
      assert lines == init + [last];
      LoadAppend(init, last);
      HeaderCountAppend(init, last);
      LoadSizes(init);
    }
  }

  /** The method form of `from_file`: the `for_each` over the lines with the counter and the list. */
  method FromLines(lines: seq<string>) returns (r: Result<CageTable, LoadError>)
    ensures r == Load(lines)
  {
    var items: seq<TableItem> := [];
    var cageSize := 0;
    for k := 0 to |lines|
      invariant LoadFrom(lines[k..], cageSize, items) == Load(lines)
    {
      var line := lines[k];
      assert lines[k..][0] == line && lines[k..][1..] == lines[k + 1..];
      if IsHeader(line) {
        cageSize := cageSize + 1;
      } else if ':' in line {
        var entry := ParseEntry(line, cageSize);
        if entry.Err? {
          return Err(entry.error);
        }
        items := items + [entry.value];
      }
    }
    return Ok(CageTable(items));
  }

  // ---------------------------------------------------------------------
  // Lookup
  // ---------------------------------------------------------------------

  predicate Matches(item: TableItem, size: int, sum: int) {
    item.cageSum == sum && item.cageSize == size
  }

  /**
   * `find(size, sum)`: the first entry for this size and sum, or None when
   * there is none.  The table is a value, so it is left as it was.
   */
  function Find(t: CageTable, size: int, sum: int): (r: Option<TableItem>)
    ensures r.None? <==> forall k :: 0 <= k < |t.items| ==> !Matches(t.items[k], size, sum)
    ensures r.Some? ==> Matches(r.value, size, sum) && r.value in t.items
    decreases |t.items|
  {
    if t.items == [] then None
    else if Matches(t.items[0], size, sum) then Some(t.items[0])
    else Find(CageTable(t.items[1..]), size, sum)
  }

  /** No entry before the one `find` returns matches. */
  lemma {:induction false} FindFirst(t: CageTable, size: int, sum: int, k: nat)
    requires k < |t.items| && Matches(t.items[k], size, sum)
    requires forall j :: 0 <= j < k ==> !Matches(t.items[j], size, sum)
    ensures Find(t, size, sum) == Some(t.items[k])
    decreases k
  {
    if k > 0 {
      var rest := CageTable(t.items[1..]);
      assert rest.items[k - 1] == t.items[k];
      forall j | 0 <= j < k - 1
        ensures !Matches(rest.items[j], size, sum)
      {
        assert rest.items[j] == t.items[j + 1];
      }
      FindFirst(rest, size, sum, k - 1);
    }
  }

  // ---------------------------------------------------------------------
  // An example table
  // ---------------------------------------------------------------------

  /** An entry line `<sum>: <digits>`. */
  function EntryLine(sum: string, digits: string): string {
    sum + ": " + digits
  }

  /** A header line `<n> cells`. */
  function HeaderLine(n: string): string {
    n + " cells"
  }

  const ExampleLines: seq<string> := [HeaderLine("1"), EntryLine("1", "1"), HeaderLine("2"), EntryLine("3", "12"), EntryLine("4", "13")]

  /** The tokens of an entry line with a one-character sum. */
  lemma TwoTokenLine(sum: string, digits: string)
    requires |sum| == 1 && IsDigitChar(sum[0]) && IsWord(digits)
    ensures ':' in EntryLine(sum, digits)
    ensures Tokens(EntryLine(sum, digits)) == [sum + ":", digits]
  {
    var line := EntryLine(sum, digits);
    assert line[1] == ':';
    assert IsWord(sum + ":") by {
      assert (sum + ":")[0] == sum[0] && (sum + ":")[1] == ':';
    }
    assert Join([sum + ":", digits]) == line;
    TokensOfJoin([sum + ":", digits]);
  }

  /** An entry line with a one-digit sum and one combination, under any cage size. */
  lemma ExampleEntry(sum: string, digits: string, size: int, value: nat, ds: seq<nat>)
    requires |sum| == 1 && IsDigitChar(sum[0]) && DigitValue(sum[0]) == value
    requires IsWord(digits) && AllDigits(digits) && DigitsOf(digits) == ds
    ensures ':' in EntryLine(sum, digits) && !IsHeader(EntryLine(sum, digits))
    ensures Entry(EntryLine(sum, digits), size) == Ok(TableItem(size, value, [ds]))
  {
    var line := EntryLine(sum, digits);
    TwoTokenLine(sum, digits);
    assert line[|line| - 1] == digits[|digits| - 1];
    assert SumText(line) == sum by {
      assert (sum + ":")[..1] == sum;
    }
    assert ParseI32(sum) == Some(value) by {
      assert sum[..0] == [];
      assert DecimalValue(sum) == value;
    }
    assert Combinations(Tokens(line)[1..]) == [ds] by {
      assert Tokens(line)[1..] == [digits];
    }
  }

  /** A header line: the headers of the example count. */
  lemma ExampleHeader(n: string)
    ensures IsHeader(HeaderLine(n))
  {
    var line := HeaderLine(n);
    assert line[|line| - 5..] == " cells"[1..];
  }

  /** Five lines shaped like the example: header, entry, header, entry, entry. */
  lemma LoadOfFive(ls: seq<string>, i1: TableItem, i2: TableItem, i3: TableItem)
    requires |ls| == 5 && IsHeader(ls[0]) && IsHeader(ls[2])
    requires !IsHeader(ls[1]) && !IsHeader(ls[3]) && !IsHeader(ls[4])
    requires ':' in ls[1] && ':' in ls[3] && ':' in ls[4]
    requires Entry(ls[1], 1) == Ok(i1) && Entry(ls[3], 2) == Ok(i2) && Entry(ls[4], 2) == Ok(i3)
    ensures Load(ls) == Ok(CageTable([i1, i2, i3]))
  {
    var t := Ok(CageTable([i1, i2, i3]));
    assert ls[4..][0] == ls[4] && ls[4..][1..] == [];
    assert [i1, i2] + [i3] == [i1, i2, i3];
    assert LoadFrom(ls[4..], 2, [i1, i2]) == t;
    assert ls[3..][0] == ls[3] && ls[3..][1..] == ls[4..];
    assert [i1] + [i2] == [i1, i2];
    assert LoadFrom(ls[3..], 2, [i1]) == t;
    assert ls[2..][0] == ls[2] && ls[2..][1..] == ls[3..];
    assert LoadFrom(ls[2..], 1, [i1]) == t;
    assert ls[1..][0] == ls[1] && ls[1..][1..] == ls[2..];
    assert [] + [i1] == [i1];
    assert LoadFrom(ls[1..], 1, []) == t;
  }

  /** The example's entry lines, under the sizes the headers before them give. */
  lemma ExampleLine1()
    ensures ':' in ExampleLines[1] && !IsHeader(ExampleLines[1]) && Entry(ExampleLines[1], 1) == Ok(TableItem(1, 1, [[1]]))
  {
    assert DigitsOf("1") == [1];
    ExampleEntry("1", "1", 1, 1, [1]);
  }

  lemma ExampleLine3()
    ensures ':' in ExampleLines[3] && !IsHeader(ExampleLines[3]) && Entry(ExampleLines[3], 2) == Ok(TableItem(2, 3, [[1, 2]]))
  {
    assert DigitsOf("12") == [1, 2];
    ExampleEntry("3", "12", 2, 3, [1, 2]);
  }

  lemma ExampleLine4()
    ensures ':' in ExampleLines[4] && !IsHeader(ExampleLines[4]) && Entry(ExampleLines[4], 2) == Ok(TableItem(2, 4, [[1, 3]]))
  {
    assert DigitsOf("13") == [1, 3];
    ExampleEntry("4", "13", 2, 4, [1, 3]);
  }

  /** The sizes of the example's entries come from counting its headers. */
  lemma ExampleTable()
    ensures Load(ExampleLines) == Ok(CageTable([TableItem(1, 1, [[1]]), TableItem(2, 3, [[1, 2]]), TableItem(2, 4, [[1, 3]])]))
  {
    ExampleLine1();
    ExampleLine3();
    ExampleLine4();
    ExampleHeader("1");
    ExampleHeader("2");
    LoadOfFive(ExampleLines, TableItem(1, 1, [[1]]), TableItem(2, 3, [[1, 2]]), TableItem(2, 4, [[1, 3]]));
  }

  /** Lookups in the example's table, taken as a value. */
  lemma FindInExample(t: CageTable)
    requires t == CageTable([TableItem(1, 1, [[1]]), TableItem(2, 3, [[1, 2]]), TableItem(2, 4, [[1, 3]])])
    ensures Find(t, 2, 3) == Some(TableItem(2, 3, [[1, 2]]))
    ensures Find(t, 2, 2) == None
  {
    FindFirst(t, 2, 3, 1);
    assert forall k :: 0 <= k < |t.items| ==> !Matches(t.items[k], 2, 2);
  }

  /**
   * In the example, the entry for size 2 and sum 3 holds the one
   * combination {1, 2}, and there is no entry for sum 2.
   */
  lemma ExampleFind()
    ensures Load(ExampleLines).Ok?
    ensures Find(Load(ExampleLines).value, 2, 3) == Some(TableItem(2, 3, [[1, 2]]))
    ensures Find(Load(ExampleLines).value, 2, 2) == None
  {
    ExampleTable();
    FindInExample(Load(ExampleLines).value);
  }
}
