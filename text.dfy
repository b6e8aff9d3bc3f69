/** String helpers shared by the quiz routes: the answer normaliser `clean`, the
    whitespace strip, the `short_label` template filter and the comma-separated
    list selector that the settings form hands to the quiz page. */
module Text {

  // ---------------------------------------------------------------------------
  // Characters
  // ---------------------------------------------------------------------------

  /** `str.lower()` on one character: ASCII A-Z and the Latin-1 capitals
      U+00C0..U+00DE (except the multiplication sign U+00D7), which covers the
      Swedish letters Å, Ä and Ö. */
  function LowerChar(c: char): (r: char)
    ensures r == c || ('A' <= c <= 'Z' && 'a' <= r <= 'z') || ('\U{C0}' <= c <= '\U{DE}' && '\U{E0}' <= r <= '\U{FE}')
  {
    if 'A' <= c <= 'Z' || ('\U{C0}' <= c <= '\U{DE}' && c != '\U{D7}') then (c as int + 32) as char else c
  }

  /** A character that `lower()` leaves as it is. */
  predicate IsLower(c: char) {
    LowerChar(c) == c
  }

  /** The six characters the normaliser deletes: ! ? ¡ ¿ . , */
  predicate IsPunct(c: char) {
    c == '!' || c == '?' || c == '\U{A1}' || c == '\U{BF}' || c == '.' || c == ','
  }

  /** The characters `str.isspace()` accepts, which `str.strip()` removes. */
  predicate IsSpace(c: char) {
    c == ' ' || c == '\t' || c == '\n' || c == '\r' || c == '\U{B}' || c == '\U{C}'
    || ('\U{1C}' <= c <= '\U{1F}') || c == '\U{85}' || c == '\U{A0}' || c == '\U{1680}'
    || ('\U{2000}' <= c <= '\U{200A}') || c == '\U{2028}' || c == '\U{2029}'
    || c == '\U{202F}' || c == '\U{205F}' || c == '\U{3000}'
  }

  lemma LowerCharIdempotent(c: char)
    ensures IsLower(LowerChar(c))
  {
  }

  // ---------------------------------------------------------------------------
  // lower, replace, strip
  // ---------------------------------------------------------------------------

  /** `s.lower()`, one character at a time. */
  function Lower(s: string): (r: string)
    ensures |r| == |s|
  {
    seq(|s|, i requires 0 <= i < |s| => LowerChar(s[i]))
  }

  /** Lower-casing leaves nothing that `lower()` would change again. */
  lemma LowerIsLowerCase(s: string)
    ensures IsLowerCase(Lower(s))
  {
    forall i | 0 <= i < |s| ensures IsLower(Lower(s)[i]) {
      LowerCharIdempotent(s[i]);
    }
  }

  /** The chain of `.replace(p, "")` calls for the six punctuation characters;
      each deletes one single-character string, so together they delete every
      occurrence of any of them. */
  function RemovePunct(s: string): (r: string)
    ensures |r| <= |s|
  {
    if |s| == 0 then ""
    else if IsPunct(s[0]) then RemovePunct(s[1..])
    else [s[0]] + RemovePunct(s[1..])
  }

  /** None of the six characters is left, and nothing new appears. */
  lemma {:induction false} RemovePunctShape(s: string)
    ensures NoPunct(RemovePunct(s))
    ensures forall c :: c in RemovePunct(s) ==> c in s
  {
    if |s| > 0 {
      RemovePunctShape(s[1..]);
    }
  }

  /** Every other character survives the deletion. */
  lemma {:induction false} RemovePunctKeeps(s: string)
    ensures forall i :: 0 <= i < |s| && !IsPunct(s[i]) ==> s[i] in RemovePunct(s)
  {
    if |s| > 0 {
      RemovePunctKeeps(s[1..]);
      forall i | 0 <= i < |s| && !IsPunct(s[i]) ensures s[i] in RemovePunct(s) {
        if i > 0 {
          assert s[i] == s[1..][i - 1];
        }
      }
    }
  }

  /** `s.lstrip()`: drop the longest all-whitespace prefix. */
  function StripLeft(s: string): (r: string)
    ensures |r| <= |s|
  {
    if |s| > 0 && IsSpace(s[0]) then StripLeft(s[1..]) else s
  }

  /** `lstrip` keeps a suffix that starts with a non-space, and everything it
      drops is whitespace. */
  lemma {:induction false} StripLeftShape(s: string)
    ensures StripLeft(s) == s[|s| - |StripLeft(s)|..]
    ensures StripLeft(s) == "" || !IsSpace(StripLeft(s)[0])
    ensures forall i :: 0 <= i < |s| - |StripLeft(s)| ==> IsSpace(s[i])
  {
    if |s| > 0 && IsSpace(s[0]) {
      StripLeftShape(s[1..]);
    }
  }

  /** `s.rstrip()`: drop the longest all-whitespace suffix. */
  function StripRight(s: string): (r: string)
    ensures |r| <= |s|
  {
    if |s| > 0 && IsSpace(s[|s| - 1]) then StripRight(s[..|s| - 1]) else s
  }

  /** `rstrip` keeps a prefix that ends in a non-space, and everything it drops
      is whitespace. */
  lemma {:induction false} StripRightShape(s: string)
    ensures StripRight(s) == s[..|StripRight(s)|]
    ensures StripRight(s) == "" || !IsSpace(StripRight(s)[|StripRight(s)| - 1])
    ensures forall i :: |StripRight(s)| <= i < |s| ==> IsSpace(s[i])
  {
    if |s| > 0 && IsSpace(s[|s| - 1]) {
      StripRightShape(s[..|s| - 1]);
    }
  }

  /** Stripping leaves no whitespace at either end and only drops characters. */
  lemma StripShape(s: string)
    ensures IsStripped(Strip(s))
    ensures forall c :: c in Strip(s) ==> c in s
  {
    var l := StripLeft(s);
    var r := StripRight(l);
    StripLeftShape(s);
    StripRightShape(l);
    assert r != "" ==> r[0] == l[0];
    forall c | c in r ensures c in s {
      var i :| 0 <= i < |r| && r[i] == c;
      assert l[i] == c;
      assert s[|s| - |l| + i] == c;
    }
  }

  /** The ends of a stripped string are not whitespace. */
  predicate IsStripped(s: string) {
    s == "" || (!IsSpace(s[0]) && !IsSpace(s[|s| - 1]))
  }

  /** `s.strip()`: what is left when whitespace is dropped from both ends. */
  function Strip(s: string): (r: string)
    ensures |r| <= |s|
  {
    StripRight(StripLeft(s))
  }

  // ---------------------------------------------------------------------------
  // The answer normaliser
  // ---------------------------------------------------------------------------

  predicate IsLowerCase(s: string) {
    forall i :: 0 <= i < |s| ==> IsLower(s[i])
  }

  predicate NoPunct(s: string) {
    forall i :: 0 <= i < |s| ==> !IsPunct(s[i])
  }

  /** `clean`: lower-case, delete ! ? ¡ ¿ . , and strip. */
  function Clean(s: string): string {
    Strip(RemovePunct(Lower(s)))
  }

  /** A cleaned string is lower case, free of the six characters and has no
      whitespace at either end. */
  lemma CleanShape(s: string)
    ensures IsLowerCase(Clean(s))
    ensures NoPunct(Clean(s))
    ensures IsStripped(Clean(s))
  {
    var l := Lower(s);
    var p := RemovePunct(l);
    LowerIsLowerCase(s);
    RemovePunctShape(l);
    forall c | c in p ensures IsLower(c) {
      assert c in l;
      var i :| 0 <= i < |l| && l[i] == c;
    }
    var r := Strip(p);
    StripShape(p);
    forall i | 0 <= i < |r| ensures r[i] in p {
      assert r[i] in r;
    }
  }

  lemma {:induction false} LowerOfLowerCase(s: string)
    requires IsLowerCase(s)
    ensures Lower(s) == s
  {
    assert forall i :: 0 <= i < |s| ==> Lower(s)[i] == s[i];
  }

  lemma {:induction false} RemovePunctOfNoPunct(s: string)
    requires NoPunct(s)
    ensures RemovePunct(s) == s
  {
    if |s| > 0 {
      RemovePunctOfNoPunct(s[1..]);
    }
  }

  lemma StripOfStripped(s: string)
    requires IsStripped(s)
    ensures Strip(s) == s
  {
    assert StripLeft(s) == s;
  }

  /** Cleaning twice is cleaning once: a stored answer that is already clean
      compares equal to the cleaned user input. */
  lemma CleanIdempotent(s: string)
    ensures Clean(Clean(s)) == Clean(s)
  {
    var c := Clean(s);
    CleanShape(s);
    LowerOfLowerCase(c);
    RemovePunctOfNoPunct(c);
    StripOfStripped(c);
  }

  /** Case is ignored: cleaning the lower-cased text gives the same answer. */
  lemma CleanIgnoresCase(s: string)
    ensures Clean(Lower(s)) == Clean(s)
  {
    LowerIsLowerCase(s);
    LowerOfLowerCase(Lower(s));
  }

  lemma {:induction false} RemovePunctIdempotent(s: string)
    ensures RemovePunct(RemovePunct(s)) == RemovePunct(s)
  {
    RemovePunctShape(s);
    RemovePunctOfNoPunct(RemovePunct(s));
  }

  lemma LowerCons(c: char, t: string)
    ensures Lower([c] + t) == [LowerChar(c)] + Lower(t)
  {
  }

  lemma {:induction false} LowerRemovePunctCommute(s: string)
    ensures Lower(RemovePunct(s)) == RemovePunct(Lower(s))
  {
    if |s| > 0 {
      var t := s[1..];
      LowerRemovePunctCommute(t);
      assert s == [s[0]] + t;
      LowerCons(s[0], t);
      if !IsPunct(s[0]) {
        LowerCons(s[0], RemovePunct(t));
      }
    }
  }

  /** Punctuation is ignored: "Hund!" and "hund" clean to the same answer. */
  lemma CleanIgnoresPunct(s: string)
    ensures Clean(RemovePunct(s)) == Clean(s)
  {
    LowerRemovePunctCommute(s);
    RemovePunctIdempotent(Lower(s));
  }

  // ---------------------------------------------------------------------------
  // Slicing and the short_label filter
  // ---------------------------------------------------------------------------

  /** The length of Python's `s[:k]`: a negative `k` counts from the end. */
  function PrefixLength(n: nat, k: int): (m: nat)
    ensures m <= n
    ensures 0 <= k ==> m == if k < n then k else n
    ensures k < 0 ==> m == if n + k < 0 then 0 else n + k
  {
    if 0 <= k then (if k < n then k else n) else (if n + k < 0 then 0 else n + k)
  }

  /** Python's `s[:k]`. */
  function Take<T>(s: seq<T>, k: int): (r: seq<T>)
    ensures r == s[..PrefixLength(|s|, k)]
  {
    s[..PrefixLength(|s|, k)]
  }

  /** The `short_label` template filter: empty text gives "", text of at most
      `length` characters is kept, longer text keeps `text[:length-3]` and gets
      "..." appended. */
  function ShortLabel(text: string, length: int): (r: string)
    ensures text == "" ==> r == ""
    ensures text != "" && |text| <= length ==> r == text
    ensures |text| > length && length >= 3 ==>
              |r| == length && r[..length - 3] == text[..length - 3] && r[length - 3..] == "..."
    ensures text != "" && |text| > length && length < 3 ==>
              r == text[..PrefixLength(|text|, length - 3)] + "..."
  {
    if text == "" then ""
    else if |text| <= length then text
    else Take(text, length - 3) + "..."
  }

  /** The filter never makes a label longer than `length` once `length` leaves
      room for the ellipsis, and with the default width of 28 a label fits in 28. */
  lemma ShortLabelFits(text: string, length: int)
    requires length >= 3
    ensures |ShortLabel(text, length)| <= length
    ensures |ShortLabel(text, length)| <= |text|
    ensures ShortLabel(text, length) == text <==> |text| <= length
  {
  }

  // ---------------------------------------------------------------------------
  // The list selector: ",".join and split(",") with isdigit
  // ---------------------------------------------------------------------------

  /** `sep.join(xs)`. */
  function Join(xs: seq<string>, sep: string): string
  {
    if |xs| == 0 then ""
    else if |xs| == 1 then xs[0]
    else xs[0] + sep + Join(xs[1..], sep)
  }

  /** `s.split(sep)` for a one-character separator: always at least one piece,
      and no piece contains the separator. */
  function Split(s: string, sep: char): (r: seq<string>)
    ensures |r| >= 1
    ensures forall t :: t in r ==> sep !in t
  {
    if |s| == 0 then [""]
    else
      var rest := Split(s[1..], sep);
      if s[0] == sep then [""] + rest
      else [[s[0]] + rest[0]] + rest[1..]
  }

  predicate IsDigit(c: char) {
    '0' <= c <= '9'
  }

  /** `t.isdigit()` restricted to ASCII digits: true only for a non-empty
      string of digits. */
  predicate IsDigits(t: string) {
    |t| > 0 && forall i :: 0 <= i < |t| ==> IsDigit(t[i])
  }

  /** `int(t)` for a digit string. */
  function DecimalValue(t: string): nat
    requires forall i :: 0 <= i < |t| ==> IsDigit(t[i])
  {
    if |t| == 0 then 0
    else
      var d := t[|t| - 1];
      assert IsDigit(d);
      DecimalValue(t[..|t| - 1]) * 10 + (d as int - '0' as int)
  }

  /** `str(n)` for a natural number. */
  function Show(n: nat): (r: string)
    ensures IsDigits(r)
  {
    if n < 10 then [('0' as int + n) as char]
    else Show(n / 10) + [('0' as int + n % 10) as char]
  }

  lemma {:induction false} ShowDecimalValue(n: nat)
    ensures DecimalValue(Show(n)) == n
  {
    if n >= 10 {
      var s := Show(n);
      assert s[..|s| - 1] == Show(n / 10);
      ShowDecimalValue(n / 10);
    }
  }

  /** `[int(x) for x in param.split(",") if x.isdigit()]`. */
  function ParseListIds(param: string): (ids: seq<nat>)
    ensures |ids| <= |Split(param, ',')|
  {
    DigitTokens(Split(param, ','))
  }

  function DigitTokens(tokens: seq<string>): (ids: seq<nat>)
    ensures |ids| <= |tokens|
  {
    if |tokens| == 0 then []
    else if IsDigits(tokens[0]) then [DecimalValue(tokens[0])] + DigitTokens(tokens[1..])
    else DigitTokens(tokens[1..])
  }

  /** The string the settings form puts in the `lists` parameter: "all" when
      the "all" checkbox is among the selected values, otherwise the selected
      values joined by commas. */
  function ListsParam(selected: seq<string>): (r: string)
    ensures "all" in selected ==> r == "all"
    ensures "all" !in selected ==> r == Join(selected, ",")
  {
    if "all" in selected then "all" else Join(selected, ",")
  }

  lemma {:induction false} SplitNoSep(a: string, sep: char)
    requires sep !in a
    ensures Split(a, sep) == [a]
  {
    if |a| > 0 {
      SplitNoSep(a[1..], sep);
      assert [a[0]] + a[1..] == a;
    }
  }

  lemma {:induction false} SplitAfterPiece(a: string, sep: char, b: string)
    requires sep !in a
    ensures Split(a + [sep] + b, sep) == [a] + Split(b, sep)
  {
    if |a| == 0 {
      assert (a + [sep] + b)[1..] == b;
    } else {
      assert (a + [sep] + b)[1..] == a[1..] + [sep] + b;
      SplitAfterPiece(a[1..], sep, b);
      assert [a[0]] + a[1..] == a;
    }
  }

  /** Splitting a joined list gives the list back when no piece contains the
      separator. */
  lemma {:induction false} SplitJoin(xs: seq<string>, sep: char)
    requires |xs| >= 1
    requires forall x :: x in xs ==> sep !in x
    ensures Split(Join(xs, [sep]), sep) == xs
  {
    if |xs| == 1 {
      SplitNoSep(xs[0], sep);
    } else {
      SplitJoin(xs[1..], sep);
      SplitAfterPiece(xs[0], sep, Join(xs[1..], [sep]));
    }
  }

  function ShowAll(ids: seq<nat>): (r: seq<string>)
    ensures |r| == |ids|
    ensures forall i :: 0 <= i < |r| ==> r[i] == Show(ids[i])
  {
    if |ids| == 0 then [] else [Show(ids[0])] + ShowAll(ids[1..])
  }

  lemma {:induction false} DigitTokensOfShown(ids: seq<nat>)
    ensures DigitTokens(ShowAll(ids)) == ids
  {
    if |ids| > 0 {
      ShowDecimalValue(ids[0]);
      assert ShowAll(ids)[1..] == ShowAll(ids[1..]);
      DigitTokensOfShown(ids[1..]);
    }
  }

  /** The selector round trip: list ids rendered by the settings form, joined
      with "," and parsed again by the quiz page, are the same ids in the same
      order. With no list selected the page gets no ids. */
  lemma ListsParamRoundTrip(ids: seq<nat>)
    ensures ParseListIds(ListsParam(ShowAll(ids))) == ids
  {
    var shown := ShowAll(ids);
    assert "all" !in shown by {
      forall i | 0 <= i < |shown| ensures shown[i] != "all" {
        assert IsDigit(shown[i][0]);
        assert "all"[0] == 'a';
      }
    }
    if |ids| == 0 {
      assert Split("", ',') == [""];
    } else {
      forall x | x in shown ensures ',' !in x {
        var i :| 0 <= i < |shown| && shown[i] == x;
        assert IsDigits(x);
      }
      SplitJoin(shown, ',');
      DigitTokensOfShown(ids);
    }
  }
}
