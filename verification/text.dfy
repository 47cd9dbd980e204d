/**
 * The Python string built-ins the parsers rely on (`str.isdigit`, `int`, `str`, `lstrip`, `rstrip`,
 * `strip`, `split`, `lower`, `replace`, `startswith`, `in`), restricted to ASCII character classes.
 */
module Text {
  import opened Wrappers

  predicate IsDigit(c: char) { '0' <= c <= '9' }

  /** Python's `\w` on ASCII: letters, digits and underscore. */
  predicate IsWordChar(c: char) { 'a' <= c <= 'z' || 'A' <= c <= 'Z' || IsDigit(c) || c == '_' }

  /** Python's `\s` and `str.isspace` on ASCII: space, `\t \n \v \f \r` and the separators `\x1c`-`\x1f`. */
  predicate IsSpace(c: char) { c == ' ' || '\t' <= c <= '\r' || 28 <= c as int <= 31 }

  predicate AllDigits(s: string) { forall i :: 0 <= i < |s| ==> IsDigit(s[i]) }

  predicate NotSpace(c: char) { !IsSpace(c) }

  predicate NoSpace(s: string) { forall i :: 0 <= i < |s| ==> NotSpace(s[i]) }

  /** A word of `s.split()`: a non-empty run without whitespace. */
  predicate IsWord(w: string) { w != [] && NoSpace(w) }

  /** `s[i..]` starts with `sub`. */
  predicate StartsAt(s: string, i: nat, sub: string) { i + |sub| <= |s| && s[i..i + |sub|] == sub }

  /** Python's `s.startswith(prefix)`. */
  predicate StartsWith(s: string, prefix: string) { StartsAt(s, 0, prefix) }

  /** Python's `sub in s`. */
  predicate Contains(s: string, sub: string) { exists i: nat :: i <= |s| && StartsAt(s, i, sub) }

  lemma ContainsTail(s: string, sub: string)
    requires s != [] && Contains(s[1..], sub)
    ensures Contains(s, sub)
  {
    var i: nat :| i <= |s[1..]| && StartsAt(s[1..], i, sub);
    assert s[i + 1..i + 1 + |sub|] == s[1..][i..i + |sub|];
    assert StartsAt(s, i + 1, sub);
  }

  /** The value of a decimal digit string, read most significant digit first. */
  function DecimalValue(s: string): (v: nat)
    requires AllDigits(s)
    ensures s != [] && s[0] == '0' ==> v == DecimalValue(s[1..])
    decreases |s|
  {
    if s == [] then 0
    else
      var init := s[..|s| - 1];
      assert |s| >= 2 ==> init[1..] == s[1..][..|s| - 2];
      DecimalValue(init) * 10 + (s[|s| - 1] as int - '0' as int)
  }

  function DigitChar(d: nat): (c: char)
    requires d < 10
    ensures IsDigit(c) && c as int - '0' as int == d
  {
    ('0' as int + d) as char
  }

  /** Python's `str(n)` for a non-negative integer; reading it back gives `n`. */
  function NatToString(n: nat): (s: string)
    ensures |s| > 0 && AllDigits(s) && DecimalValue(s) == n
    ensures |s| == 1 || s[0] != '0'
    decreases n
  {
    if n < 10 then [DigitChar(n)]
    else
      var p := NatToString(n / 10);
      var s := p + [DigitChar(n % 10)];
      assert s[..|s| - 1] == p;
      assert s[0] == p[0];
      assert p[0] != '0' by {
        if |p| == 1 {
          assert DecimalValue(p) == p[0] as int - '0' as int;
        }
      }
      s
  }

  /** The length of the longest run of characters satisfying `keep` that starts at `i`. */
  function RunLength(s: string, i: nat, keep: char -> bool): (n: nat)
    requires i <= |s|
    ensures i + n <= |s|
    ensures forall k :: i <= k < i + n ==> keep(s[k])
    ensures i + n == |s| || !keep(s[i + n])
    decreases |s| - i
  {
    if i < |s| && keep(s[i]) then 1 + RunLength(s, i + 1, keep) else 0
  }

  /** Python's `s.lstrip(chars)`: every leading character satisfying `drop` is removed. */
  function TrimLeft(s: string, drop: char -> bool): (r: string)
    ensures |r| <= |s| && r == s[|s| - |r|..]
    ensures forall i :: 0 <= i < |s| - |r| ==> drop(s[i])
    ensures r == [] || !drop(r[0])
  {
    if s != [] && drop(s[0]) then
      var r := TrimLeft(s[1..], drop);
      assert s[1..][|s| - 1 - |r|..] == s[|s| - |r|..];
      assert forall i :: 1 <= i < |s| - |r| ==> s[i] == s[1..][i - 1];
      r
    else s
  }

  /** Python's `s.rstrip(chars)`: every trailing character satisfying `drop` is removed. */
  function TrimRight(s: string, drop: char -> bool): (r: string)
    ensures |r| <= |s| && r == s[..|r|]
    ensures forall i :: |r| <= i < |s| ==> drop(s[i])
    ensures r == [] || !drop(r[|r| - 1])
  {
    if s != [] && drop(s[|s| - 1]) then TrimRight(s[..|s| - 1], drop) else s
  }

  /** Where the leading whitespace of `s` ends. */
  function SpacesStart(s: string): (i: nat)
    ensures i <= |s| && (i == |s| || !IsSpace(s[i]))
    ensures forall k :: 0 <= k < i ==> IsSpace(s[k])
  {
    if s != [] && IsSpace(s[0]) then 1 + SpacesStart(s[1..]) else 0
  }

  /** Where the trailing whitespace of `s` starts. */
  function SpacesEnd(s: string): (j: nat)
    ensures j <= |s| && (j == 0 || !IsSpace(s[j - 1]))
    ensures forall k :: j <= k < |s| ==> IsSpace(s[k])
  {
    if s != [] && IsSpace(s[|s| - 1]) then SpacesEnd(s[..|s| - 1]) else |s|
  }

  /** Python's `s.strip()`: the middle of `s` between leading and trailing whitespace; it sits at
      offset `SpacesStart(s)`, framed by whitespace. */
  function Strip(s: string): (r: string)
    ensures r == [] || (!IsSpace(r[0]) && !IsSpace(r[|r| - 1]))
    ensures SpaceFramed(s, SpacesStart(s), r)
  {
    var i, j := SpacesStart(s), SpacesEnd(s);
    if i < j then s[i..j] else []
  }

  /** `s` is `r` at offset `i` with only whitespace around it. */
  predicate SpaceFramed(s: string, i: nat, r: string)
  {
    && i + |r| <= |s| && r == s[i..i + |r|]
    && (forall k :: 0 <= k < i ==> IsSpace(s[k]))
    && (forall k :: i + |r| <= k < |s| ==> IsSpace(s[k]))
  }

  /** A string that neither starts nor ends with whitespace is its own `strip()`. */
  lemma StripUnchanged(s: string)
    requires s == [] || (!IsSpace(s[0]) && !IsSpace(s[|s| - 1]))
    ensures Strip(s) == s
  {
  }

  /** The length of the word that starts `t`: its run of non-whitespace characters. */
  function WordLength(t: string): (n: nat)
    requires t != [] && NotSpace(t[0])
    ensures 1 <= n <= |t| && NoSpace(t[..n])
    ensures n == |t| || IsSpace(t[n])
  {
    var n := RunLength(t, 0, NotSpace);
    assert NoSpace(t[..n]) by {
      forall i | 0 <= i < n ensures NotSpace(t[..n][i]) { assert t[..n][i] == t[i]; }
    }
    n
  }

  /** Python's `s.split()`: the maximal runs of non-whitespace characters, in order. */
  function Words(s: string): (r: seq<string>)
    ensures forall k :: 0 <= k < |r| ==> IsWord(r[k])
    decreases |s|
  {
    if s == [] then []
    else if IsSpace(s[0]) then Words(s[1..])
    else
      var n := WordLength(s);
      [s[..n]] + Words(s[n..])
  }

  /** The length of a word is determined by where its first whitespace character is. */
  lemma WordLengthOf(t: string, n: nat)
    requires 1 <= n <= |t| && (forall k :: 0 <= k < n ==> NotSpace(t[k])) && (n == |t| || IsSpace(t[n]))
    ensures WordLength(t) == n
  {
    var m := WordLength(t);
    assert forall k :: 0 <= k < m ==> NotSpace(t[k]) by {
      forall k | 0 <= k < m ensures NotSpace(t[k]) { assert t[..m][k] == t[k]; }
    }
  }

  /** A string without whitespace is a single word. */
  lemma WordsOfWord(w: string)
    requires IsWord(w)
    ensures Words(w) == [w]
  {
    assert forall k :: 0 <= k < |w| ==> NotSpace(w[k]);
    WordLengthOf(w, |w|);
    assert w[..|w|] == w && w[|w|..] == [];
  }

  /** Splitting at any whitespace character: the words on each side, one side after the other. With
      `WordsOfWord` and `Words("") == []` this determines `Words` on every string. */
  lemma {:induction false} WordsSplit(a: string, c: char, b: string)
    requires IsSpace(c)
    ensures Words(a + [c] + b) == Words(a) + Words(b)
    decreases |a|
  {
    var s := a + [c] + b;
    if a == [] {
      assert s[1..] == b;
    } else if IsSpace(a[0]) {
      DropFirstOfConcat(a, [c], b);
      WordsSplit(a[1..], c, b);
    } else {
      var n := WordLength(a);
      WordsSplitHead(a, c, b);
      WordsSplit(a[n..], c, b);
      var w, rest := [a[..n]], Words(a[n..]);
      assert Words(s) == w + (rest + Words(b));
      assert w + (rest + Words(b)) == (w + rest) + Words(b);
    }
  }

  /** The first word of `a + [c] + b` is the first word of `a` when `c` is whitespace. */
  lemma WordsSplitHead(a: string, c: char, b: string)
    requires IsSpace(c) && a != [] && NotSpace(a[0])
    ensures WordLength(a + [c] + b) == WordLength(a)
    ensures (a + [c] + b)[..WordLength(a)] == a[..WordLength(a)]
    ensures (a + [c] + b)[WordLength(a)..] == a[WordLength(a)..] + [c] + b
  {
    var s := a + [c] + b;
    var n := WordLength(a);
    assert forall k :: 0 <= k < n ==> NotSpace(a[..n][k]);
    assert forall k :: 0 <= k < n ==> s[k] == a[k];
    assert s[n] == if n < |a| then a[n] else c;
    WordLengthOf(s, n);
    assert s[..n] == a[..n];
    assert s[n..] == a[n..] + [c] + b;
  }

  /** The non-whitespace characters of `s`, in order. */
  function RemoveSpaces(s: string): string
  {
    if s == [] then [] else (if IsSpace(s[0]) then [] else [s[0]]) + RemoveSpaces(s[1..])
  }

  function Concat(ws: seq<string>): string
  {
    if ws == [] then [] else ws[0] + Concat(ws[1..])
  }

  lemma {:induction false} RemoveSpacesAppend(a: string, b: string)
    ensures RemoveSpaces(a + b) == RemoveSpaces(a) + RemoveSpaces(b)
    decreases |a|
  {
    if a == [] {
      assert a + b == b;
    } else {
      assert (a + b)[1..] == a[1..] + b;
      RemoveSpacesAppend(a[1..], b);
    }
  }

  lemma {:induction false} RemoveSpacesOfNoSpace(s: string)
    requires NoSpace(s)
    ensures RemoveSpaces(s) == s
    decreases |s|
  {
    if s != [] {
      RemoveSpacesOfNoSpace(s[1..]);
    }
  }

  /** Splitting loses exactly the whitespace: the words glued back together are `s` without its whitespace. */
  lemma {:induction false} WordsConcat(s: string)
    ensures Concat(Words(s)) == RemoveSpaces(s)
    decreases |s|
  {
    if s != [] && IsSpace(s[0]) {
      WordsConcat(s[1..]);
    } else if s != [] {
      var n := WordLength(s);
      var w, rest := s[..n], s[n..];
      assert s == w + rest;
      RemoveSpacesAppend(w, rest);
      RemoveSpacesOfNoSpace(w);
      WordsConcat(rest);
      var ws := [w] + Words(rest);
      assert ws[0] == w && ws[1..] == Words(rest);
    }
  }

  function LowerChar(c: char): char
  {
    if 'A' <= c <= 'Z' then (c as int + 32) as char else c
  }

  /** Python's `s.lower()` on ASCII letters. */
  function Lower(s: string): (r: string)
    ensures |r| == |s| && forall i :: 0 <= i < |s| ==> r[i] == LowerChar(s[i])
  {
    seq(|s|, i requires 0 <= i < |s| => LowerChar(s[i]))
  }

  /** Python's `s.replace(target, replacement)`: non-overlapping occurrences of `target`, left to right. */
  function ReplaceAll(s: string, target: string, replacement: string): (r: string)
    requires target != []
    ensures !Contains(s, target) ==> r == s
    ensures |replacement| <= |target| ==> |r| <= |s|
    decreases |s|
  {
    if s == [] then []
    else if StartsAt(s, 0, target) then replacement + ReplaceAll(s[|target|..], target, replacement)
    else
      if Contains(s[1..], target) then ContainsTail(s, target); [s[0]] + ReplaceAll(s[1..], target, replacement)
      else [s[0]] + ReplaceAll(s[1..], target, replacement)
  }

  /** Removing a prefix that occurs nowhere else leaves exactly the rest. */
  lemma ReplaceLeadingOnly(s: string, target: string)
    requires target != [] && StartsWith(s, target) && !Contains(s[|target|..], target)
    ensures ReplaceAll(s, target, "") == s[|target|..]
  {
  }

  /** The leftmost occurrence is replaced first and the search resumes after it: when no occurrence of
      `target` starts inside `x` (even one running into the occurrence after `x`), the text before it is
      kept, the occurrence replaced, and the rest replaced in turn. With the case without any occurrence
      this determines `ReplaceAll` on every string. */
  lemma {:induction false} ReplaceAllStep(x: string, target: string, replacement: string, y: string)
    requires target != []
    requires forall i :: 0 <= i < |x| ==> !StartsAt(x + target, i, target)
    ensures ReplaceAll(x + target + y, target, replacement) == x + replacement + ReplaceAll(y, target, replacement)
    decreases |x|
  {
    if x == [] {
      ReplaceAllAtFront(target, replacement, y);
    } else {
      ReplaceAllCons(x, target, replacement, y);
      NoEarlyTargetTail(x, target);
      ReplaceAllStep(x[1..], target, replacement, y);
      ConsConcat(x, replacement, ReplaceAll(y, target, replacement));
    }
  }

  /** An occurrence at the front is replaced and the search resumes after it. */
  lemma ReplaceAllAtFront(target: string, replacement: string, y: string)
    requires target != []
    ensures ReplaceAll([] + target + y, target, replacement) == [] + replacement + ReplaceAll(y, target, replacement)
  {
    var s := target + y;
    assert [] + target + y == s;
    assert s[..|target|] == target && s[|target|..] == y;
    ReplaceAllFront(s, target, replacement);
    AppendEmptyFront(replacement, ReplaceAll(y, target, replacement));
  }

  lemma ReplaceAllFront(s: string, target: string, replacement: string)
    requires target != [] && StartsAt(s, 0, target)
    ensures ReplaceAll(s, target, replacement) == replacement + ReplaceAll(s[|target|..], target, replacement)
  {
  }

  lemma AppendEmptyFront(x: string, y: string)
    ensures [] + x + y == x + y
  {
    assert [] + x == x;
  }

  /** Deleting a `target` that occurs exactly once leaves the text around it. */
  lemma RemoveOnlyOccurrence(x: string, target: string, y: string)
    requires target != []
    requires forall i :: 0 <= i < |x| ==> !StartsAt(x + target, i, target)
    requires !Contains(y, target)
    ensures ReplaceAll(x + target + y, target, "") == x + y
  {
    ReplaceAllStep(x, target, "", y);
    var r := ReplaceAll(y, target, "");
    AppendEmptyMiddle(x, r);
  }

  lemma AppendEmptyMiddle(x: string, y: string)
    ensures x + "" + y == x + y
  {
    assert x + "" == x;
  }

  /** One step of `ReplaceAllStep`: the first character of `x` is kept. */
  lemma ReplaceAllCons(x: string, target: string, replacement: string, y: string)
    requires target != [] && x != []
    requires forall i :: 0 <= i < |x| ==> !StartsAt(x + target, i, target)
    ensures ReplaceAll(x + target + y, target, replacement) == [x[0]] + ReplaceAll(x[1..] + target + y, target, replacement)
  {
    var s := x + target + y;
    var xt := x + target;
    assert !StartsAt(xt, 0, target);
    assert s[..|target|] == xt[..|target|];
    ReplaceAllHead(s, target, replacement);
    DropFirstOfConcat(x, target, y);
  }

  lemma DropFirstOfConcat(x: string, t: string, y: string)
    requires x != []
    ensures (x + t + y)[1..] == x[1..] + t + y
  {
    var s := x + t + y;
    forall i | 0 <= i < |s| - 1 ensures s[1..][i] == (x[1..] + t + y)[i] {
      if i < |x| - 1 {
        assert s[1..][i] == x[i + 1];
      } else if i < |x| - 1 + |t| {
        assert s[1..][i] == t[i + 1 - |x|];
      } else {
        assert s[1..][i] == y[i + 1 - |x| - |t|];
      }
    }
  }

  lemma DropFirstOfAppend(x: string, y: string)
    requires x != []
    ensures (x + y)[1..] == x[1..] + y
  {
  }

  lemma ConsAppend(x: string, y: string)
    requires x != []
    ensures [x[0]] + (x[1..] + y) == x + y
  {
    assert x == [x[0]] + x[1..];
  }

  lemma ConsConcat(x: string, b: string, c: string)
    requires x != []
    ensures [x[0]] + (x[1..] + b + c) == x + b + c
  {
    assert x == [x[0]] + x[1..];
  }

  lemma DropPrefix(x: string, y: string)
    ensures (x + y)[|x|..] == y
  {
  }

  lemma AppendAssoc(x: string, y: string, z: string)
    ensures x + y + z == x + (y + z)
  {
  }

  lemma Regroup(p: string, a: string, q: string, n: string, c: string)
    ensures p + a + q + n + c == p + (a + (q + n + c))
  {
  }

  /** No occurrence starting inside `x` means none starting inside `x[1..]` either. */
  lemma NoEarlyTargetTail(x: string, target: string)
    requires x != [] && forall i :: 0 <= i < |x| ==> !StartsAt(x + target, i, target)
    ensures forall i :: 0 <= i < |x| - 1 ==> !StartsAt(x[1..] + target, i, target)
  {
    var xt := x + target;
    forall i | 0 <= i < |x| - 1 ensures !StartsAt(x[1..] + target, i, target) {
      assert !StartsAt(xt, i + 1, target);
      assert (x[1..] + target)[i..i + |target|] == xt[i + 1..i + 1 + |target|];
    }
  }

  /** Where no occurrence starts at the front, the first character is kept. */
  lemma ReplaceAllHead(s: string, target: string, replacement: string)
    requires target != [] && s != [] && !StartsAt(s, 0, target)
    ensures ReplaceAll(s, target, replacement) == [s[0]] + ReplaceAll(s[1..], target, replacement)
  {
    if Contains(s[1..], target) {
      ContainsTail(s, target);
    }
  }

  /** The digits of `s`, in order: Python's `re.sub(r"[^\d]", "", s)`. */
  function KeepDigits(s: string): (r: string)
    ensures AllDigits(r) && |r| <= |s|
    ensures AllDigits(s) ==> r == s
    ensures (forall i :: 0 <= i < |s| ==> !IsDigit(s[i])) ==> r == []
  {
    if s == [] then [] else (if IsDigit(s[0]) then [s[0]] else []) + KeepDigits(s[1..])
  }

  /** Deleting non-digits works character by character: with the one-character cases below this
      determines `KeepDigits` on every string. */
  lemma {:induction false} KeepDigitsAppend(a: string, b: string)
    ensures KeepDigits(a + b) == KeepDigits(a) + KeepDigits(b)
    decreases |a|
  {
    if a == [] {
      assert a + b == b;
    } else {
      var d: string := if IsDigit(a[0]) then [a[0]] else [];
      assert (a + b)[0] == a[0] && (a + b)[1..] == a[1..] + b;
      KeepDigitsAppend(a[1..], b);
      var ka, kb := KeepDigits(a[1..]), KeepDigits(b);
      assert KeepDigits(a + b) == d + (ka + kb);
      assert KeepDigits(a) == d + ka;
      assert d + (ka + kb) == (d + ka) + kb;
    }
  }

  /** A digit is kept and any other character deleted. */
  lemma KeepDigitsChar(c: char)
    ensures KeepDigits([c]) == if IsDigit(c) then [c] else []
  {
    assert [c][1..] == [];
  }

  /** `int(t) if t else 0` where `t` is `s` with every non-digit deleted. */
  function DigitsValue(s: string): (n: nat)
    ensures AllDigits(s) && s != [] ==> n == DecimalValue(s)
    ensures (forall i :: 0 <= i < |s| ==> !IsDigit(s[i])) ==> n == 0
  {
    var d := KeepDigits(s);
    if d == [] then 0 else DecimalValue(d)
  }

  /** A non-empty run of digits, optionally after one `+` or `-`. */
  predicate IntLiteral(t: string)
  {
    (t != [] && AllDigits(t)) || (|t| >= 2 && (t[0] == '+' || t[0] == '-') && AllDigits(t[1..]))
  }

  /** Python's `int(s)` on a string: optional surrounding whitespace, an optional sign, decimal digits;
      `None` where Python raises `ValueError`. */
  function ParseInt(s: string): (r: Option<int>)
    ensures AllDigits(s) && s != [] ==> r == Some(DecimalValue(s))
    ensures r.Some? <==> IntLiteral(Strip(s))
    ensures r.Some? && AllDigits(Strip(s)) ==> r.value == DecimalValue(Strip(s))
    ensures r.Some? && Strip(s)[0] == '+' ==> r.value == DecimalValue(Strip(s)[1..])
    ensures r.Some? && Strip(s)[0] == '-' ==> r.value == -(DecimalValue(Strip(s)[1..]) as int)
  {
    var t := Strip(s);
    assert AllDigits(s) && s != [] ==> t == s by {
      if AllDigits(s) && s != [] {
        StripUnchanged(s);
      }
    }
    if t != [] && (t[0] == '-' || t[0] == '+') then
      var d := t[1..];
      if d != [] && AllDigits(d) then
        var v: int := if t[0] == '-' then -(DecimalValue(d) as int) else DecimalValue(d);
        Some(v)
      else None
    else if t != [] && AllDigits(t) then Some(DecimalValue(t))
    else None
  }

  /** `int()` takes a leading `+` and surrounding blanks. */
  lemma ParseIntAccepts()
    ensures ParseInt("+5") == Some(5)
    ensures ParseInt(" 5 ") == Some(5)
  {
    StripUnchanged("+5");
    assert "+5"[1..] == "5";
    assert SpacesStart(" 5 ") == 1;
  }

  /** `int()` refuses a blank or a sign between digits, and a doubled sign. */
  lemma ParseIntRefuses()
    ensures ParseInt("1 2") == None
    ensures ParseInt("1-2") == None
    ensures ParseInt("--5") == None
  {
    StripUnchanged("1 2");
    assert !IsDigit("1 2"[1]);
    StripUnchanged("1-2");
    assert !IsDigit("1-2"[1]);
    StripUnchanged("--5");
    assert "--5"[1..][0] == '-';
  }

  /** Separators between digit groups are deleted before the digits are read: `"1,234"` counts 1234. */
  lemma DigitsValueSkipsSeparator(a: string, c: char, b: string)
    requires AllDigits(a) && AllDigits(b) && !IsDigit(c) && a + b != []
    ensures DigitsValue(a + [c] + b) == DecimalValue(a + b)
  {
    KeepDigitsAppend(a, [c]);
    KeepDigitsChar(c);
    assert KeepDigits(a) == a;
    assert KeepDigits(a + [c]) == a by { assert a + [] == a; }
    KeepDigitsAppend(a + [c], b);
    assert KeepDigits(b) == b;
    assert KeepDigits(a + [c] + b) == a + b;
    assert AllDigits(a + b) by {
      forall i | 0 <= i < |a + b| ensures IsDigit((a + b)[i]) {
        if i < |a| { assert (a + b)[i] == a[i]; } else { assert (a + b)[i] == b[i - |a|]; }
      }
    }
  }

  /** `1,234` reads as 1234. */
  lemma DigitsValueExample()
    ensures DigitsValue("1,234") == 1234
  {
    var a, b := "1", "234";
    assert AllDigits(a) && AllDigits(b);
    assert a + [','] + b == "1,234";
    DigitsValueSkipsSeparator(a, ',', b);
    assert a + b == "1234";
    DecimalValueExample();
  }

  lemma DecimalValueExample()
    ensures DecimalValue("1234") == 1234
  {
    var d := "1234";
    assert d[..3] == "123" && d[..3][..2] == "12" && d[..3][..2][..1] == "1";
    assert DecimalValue("1") == 1;
    assert DecimalValue("12") == 12;
    assert DecimalValue("123") == 123;
  }

  /** A character that is neither a digit, whitespace nor a sign makes `int()` fail wherever it is. */
  lemma ParseIntRejects(s: string, k: nat)
    requires k < |s| && !IsDigit(s[k]) && !IsSpace(s[k]) && s[k] != '-' && s[k] != '+'
    ensures ParseInt(s) == None
  {
    var t, i := Strip(s), SpacesStart(s);
    assert i <= k < i + |t|;
    assert t[k - i] == s[k];
    if t != [] && (t[0] == '-' || t[0] == '+') {
      assert k - i > 0;
      assert t[1..][k - i - 1] == s[k];
    }
  }

  /** `int()` accepts nothing without a digit in it. */
  lemma ParseIntNeedsDigit(s: string)
    requires ParseInt(s).Some?
    ensures exists i :: 0 <= i < |s| && IsDigit(s[i])
  {
    var t, i := Strip(s), SpacesStart(s);
    assert t == s[i..i + |t|];
    if t[0] == '-' || t[0] == '+' {
      assert IsDigit(s[i + 1]) by { assert s[i + 1] == t[1]; }
    } else {
      assert IsDigit(s[i]) by { assert s[i] == t[0]; }
    }
  }

  lemma ParseNegative(digits: string)
    requires digits != [] && AllDigits(digits)
    ensures ParseInt("-" + digits) == Some(-(DecimalValue(digits) as int))
  {
    var s := "-" + digits;
    NegativeLiteral(digits);
    StripUnchanged(s);
  }

  /** `-` followed by digits is a literal that `strip()` leaves alone. */
  lemma NegativeLiteral(digits: string)
    requires digits != [] && AllDigits(digits)
    ensures var s := "-" + digits;
            s[0] == '-' && s[1..] == digits && IntLiteral(s) && !IsSpace(s[0]) && !IsSpace(s[|s| - 1])
  {
    var s := "-" + digits;
    assert s[1..] == digits;
    assert s[|s| - 1] == digits[|digits| - 1];
  }

  /** Python's `str(i)`: the digits without leading zeros, after a `-` for a negative number; `int()`
      reads it back. */
  function IntToString(i: int): (s: string)
    ensures ParseInt(s) == Some(i)
    ensures i >= 0 ==> AllDigits(s) && s != [] && (|s| == 1 || s[0] != '0')
    ensures i < 0 ==> |s| >= 2 && s[0] == '-' && AllDigits(s[1..]) && s[1] != '0'
  {
    if i < 0 then
      var d := NatToString(-i);
      ParseNegative(d);
      assert d[0] != '0' by {
        if |d| == 1 {
          assert DecimalValue(d) == d[0] as int - '0' as int;
        }
      }
      assert ("-" + d)[1..] == d;
      "-" + d
    else NatToString(i)
  }
}
