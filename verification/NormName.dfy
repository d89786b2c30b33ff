/** Shortening names without clashes, normName of asset/src/asset-helpers.cpp. */
module NormName {
  import opened AssetModel

  // ---------- numbers in names ----------

  function Digit(d: nat): char
    requires d < 10
  {
    '0' + d as char
  }

  predicate IsDigit(c: char) {
    '0' <= c <= '9'
  }

  function Decimal(n: nat): (s: string)
    ensures s != "" && forall c | c in s :: IsDigit(c)
    ensures |s| <= 2 <==> n <= 99
    ensures |s| == 1 <==> n <= 9
  {
    if n < 10 then [Digit(n)] else Decimal(n / 10) + [Digit(n % 10)]
  }

  function Value(digits: string): nat
    requires forall c | c in digits :: IsDigit(c)
  {
    if digits == "" then 0 else
      assert IsDigit(digits[|digits| - 1]);
      10 * Value(digits[..|digits| - 1]) + (digits[|digits| - 1] - '0') as nat
  }

  lemma {:induction false} ValueOfDecimal(n: nat)
    ensures Value(Decimal(n)) == n
  {
    if n >= 10 {
      ValueOfDecimal(n / 10);
      assert Decimal(n)[..|Decimal(n)| - 1] == Decimal(n / 10);
    }
  }

  /** What follows the last '~'. */
  function Tail(v: string): Option<string> {
    if v == "" then None
    else if v[|v| - 1] == '~' then Some("")
    else match Tail(v[..|v| - 1])
      case None => None
      case Some(s) => Some(s + [v[|v| - 1]])
  }

  /** The number a name ends with after a '~'; a name without one counts as 0. */
  function NumberOf(v: string): nat {
    match Tail(v)
    case None => 0
    case Some(s) => if s != "" && forall i | 0 <= i < |s| :: IsDigit(s[i]) then Value(s) else 0
  }

  lemma {:induction false} TailOfSuffixed(prefix: string, digits: string)
    requires forall c | c in digits :: IsDigit(c)
    ensures Tail(prefix + "~" + digits) == Some(digits)
  {
    var v := prefix + "~" + digits;
    if digits != "" {
      var front := digits[..|digits| - 1];
      assert v[..|v| - 1] == prefix + "~" + front;
      assert v[|v| - 1] == digits[|digits| - 1] && digits[|digits| - 1] in digits;
      TailOfSuffixed(prefix, front);
      assert front + [digits[|digits| - 1]] == digits;
    }
  }

  ghost predicate IsNumber(s: string) {
    s != "" && forall c | c in s :: '0' <= c <= '9'
  }

  lemma {:induction false} TailIs(v: string)
    ensures match Tail(v)
      case None => '~' !in v
      case Some(s) => |s| < |v| && v[|v| - |s| - 1] == '~' && v[|v| - |s|..] == s && '~' !in s
  {
    if v != "" && v[|v| - 1] != '~' {
      var front := v[..|v| - 1];
      TailIs(front);
      assert v == front + [v[|v| - 1]];
    }
  }

  /** What ends in '~' and a number has that number, whatever its zeros, and all else has 0. */
  lemma NumberOfIs(v: string)
    ensures forall prefix, digits | v == prefix + "~" + digits && IsNumber(digits) :: NumberOf(v) == Value(digits)
    ensures (forall i | 0 <= i < |v| && v[i] == '~' :: !IsNumber(v[i + 1..])) ==> NumberOf(v) == 0
  {
    forall prefix, digits | v == prefix + "~" + digits && IsNumber(digits) ensures NumberOf(v) == Value(digits) {
      TailOfSuffixed(prefix, digits);
      assert forall i | 0 <= i < |digits| :: digits[i] in digits;
    }
    TailIs(v);
  }

  lemma {:induction false} LeadingZeros(digits: string)
    requires forall c | c in digits :: IsDigit(c)
    ensures Value("0" + digits) == Value(digits)
  {
    var more := "0" + digits;
    if digits == "" {
      assert more[..0] == "";
    } else {
      assert more[..|more| - 1] == "0" + digits[..|digits| - 1];
      LeadingZeros(digits[..|digits| - 1]);
    }
  }

  lemma NumberOfSuffixed(prefix: string, n: nat)
    ensures NumberOf(prefix + "~" + Decimal(n)) == n
  {
    TailOfSuffixed(prefix, Decimal(n));
    ValueOfDecimal(n);
  }

  // ---------- the query ----------

  /** SQL LIKE: '%' stands for any text, '_' for any character, '\' takes the next one literally. */
  predicate Like(v: string, pattern: string)
    decreases |pattern|, |v|
  {
    if pattern == "" then v == ""
    else if pattern[0] == '%' then Like(v, pattern[1..]) || (v != "" && Like(v[1..], pattern))
    else if pattern[0] == '\\' && |pattern| > 1 then v != "" && v[0] == pattern[1] && Like(v[1..], pattern[2..])
    else v != "" && (pattern[0] == '_' || v[0] == pattern[0]) && Like(v[1..], pattern[1..])
  }

  lemma {:induction false} AnythingIsLikePercent(v: string)
    ensures Like(v, "%")
  {
    if v != "" { AnythingIsLikePercent(v[1..]); }
  }

  /** What each part of a mask stands for. */
  lemma {:induction false} LikePercent(v: string, rest: string)
    ensures Like(v, "%" + rest) <==> exists i :: 0 <= i <= |v| && Like(v[i..], rest)
  {
    var mask := "%" + rest;
    assert mask[1..] == rest && v[0..] == v;
    if v != "" {
      LikePercent(v[1..], rest);
      if i :| 0 <= i <= |v| - 1 && Like(v[1..][i..], rest) { assert v[i + 1..] == v[1..][i..]; }
      if i :| 0 < i <= |v| && Like(v[i..], rest) { assert v[1..][i - 1..] == v[i..]; }
    }
  }

  lemma LikeUnderscore(v: string, rest: string)
    ensures Like(v, "_" + rest) <==> v != "" && Like(v[1..], rest)
  {
    assert ("_" + rest)[1..] == rest;
  }

  lemma LikeEscaped(v: string, c: char, rest: string)
    ensures Like(v, "\\" + [c] + rest) <==> v != "" && v[0] == c && Like(v[1..], rest)
  {
    assert ("\\" + [c] + rest)[2..] == rest;
  }

  lemma {:induction false} LikeLiteral(v: string, literal: string)
    requires '%' !in literal && '_' !in literal && '\\' !in literal
    ensures Like(v, literal) <==> v == literal
  {
    if literal != "" && v != "" {
      LikeLiteral(v[1..], literal[1..]);
      assert v == [v[0]] + v[1..] && literal == [literal[0]] + literal[1..];
    }
  }

  /** A text matches a mask made of its own beginning, unless that has a backslash. */
  lemma {:induction false} BeginningIsLike(prefix: string, rest: string)
    requires '\\' !in prefix
    ensures Like(prefix + "~" + rest, prefix + "~%")
  {
    var v, mask := prefix + "~" + rest, prefix + "~%";
    if prefix == "" {
      AnythingIsLikePercent(rest);
      assert v[1..] == rest && mask[1..] == "%";
    } else {
      BeginningIsLike(prefix[1..], rest);
      assert v[1..] == prefix[1..] + "~" + rest && mask[1..] == prefix[1..] + "~%";
      assert v[0] == prefix[0] == mask[0];
      if mask[0] == '%' { assert Like(v[1..], mask[1..]); PercentTakesOne(v, mask); }
    }
  }

  lemma PercentTakesOne(v: string, mask: string)
    requires v != "" && mask != "" && mask[0] == '%' && Like(v[1..], mask[1..])
    ensures Like(v, mask)
  {
    assert Like(v[1..], mask);
  }

  /** std::string::substr(0, n) with an unsigned n: below zero it wraps and takes everything. */
  function Cut(s: string, n: int): string {
    if 0 <= n <= |s| then s[..n] else s
  }

  predicate IsSelected(v: string, name: string, maxLen: nat) {
    || v == name
    || Like(v, Cut(name, maxLen - 2) + "~%")
    || Like(v, Cut(name, maxLen - 3) + "~%")
  }

  // ---------- the name ----------

  function Suffixed(origName: string, maxLen: nat, n: nat): string {
    Cut(origName, maxLen - 1 - |Decimal(n)|) + "~" + Decimal(n)
  }

  /** n is one more than the largest number among the selected names. */
  ghost predicate IsNext(others: seq<string>, name: string, maxLen: nat, n: nat) {
    && (forall v | v in others && IsSelected(v, name, maxLen) :: NumberOf(v) < n)
    && (exists v :: v in others && IsSelected(v, name, maxLen) && NumberOf(v) + 1 == n)
  }

  ghost predicate IsNormed(origName: string, maxLen: nat, others: seq<string>, name: string) {
    if |origName| < maxLen then name == origName
    else if forall v | v in others :: !IsSelected(v, origName[..maxLen], maxLen) then name == origName[..maxLen]
    else exists n: nat :: IsNext(others, origName[..maxLen], maxLen, n) && name == Suffixed(origName, maxLen, n)
  }

  /** normName; others are the names of the other assets. */
  method Norm(origName: string, maxLen: nat, others: seq<string>) returns (name: string)
    ensures IsNormed(origName, maxLen, others, name)
  {
    if |origName| < maxLen {
      return origName;
    }
    name := origName[..maxLen];
    var num: int := -1;
    for i := 0 to |others|
      invariant num >= -1
      invariant num == -1 ==> forall v | v in others[..i] :: !IsSelected(v, name, maxLen)
      invariant num >= 0 ==> IsNext(others[..i], name, maxLen, num + 1)
    {
      var val := others[i];
      assert others[..i + 1] == others[..i] + [val];
      NextOfMore(others[..i], val, name, maxLen, num);
      if IsSelected(val, name, maxLen) && NumberOf(val) > num {
        num := NumberOf(val);
      }
    }
    assert others[..|others|] == others;
    if num != -1 {
      assert exists v :: v in others && IsSelected(v, name, maxLen);
      name := Suffixed(origName, maxLen, num + 1);
    }
  }

  lemma NextOfMore(others: seq<string>, val: string, name: string, maxLen: nat, num: int)
    requires num >= -1
    requires num == -1 ==> forall v | v in others :: !IsSelected(v, name, maxLen)
    requires num >= 0 ==> IsNext(others, name, maxLen, num + 1)
    ensures IsSelected(val, name, maxLen) && NumberOf(val) > num ==>
      IsNext(others + [val], name, maxLen, NumberOf(val) + 1)
    ensures num >= 0 && (IsSelected(val, name, maxLen) ==> NumberOf(val) <= num) ==>
      IsNext(others + [val], name, maxLen, num + 1)
  {
    var more := others + [val];
    assert val in more && forall v | v in others :: v in more;
    if num >= 0 {
      var v :| v in others && IsSelected(v, name, maxLen) && NumberOf(v) == num;
      assert v in more;
    }
  }

  lemma SuffixedIsSelected(origName: string, maxLen: nat, n: nat)
    requires 3 <= maxLen <= |origName| && n <= 99 && '\\' !in origName[..maxLen]
    ensures IsSelected(Suffixed(origName, maxLen, n), origName[..maxLen], maxLen)
  {
    var name, end := origName[..maxLen], maxLen - 1 - |Decimal(n)|;
    assert origName[..end] == name[..end];
    assert forall c | c in name[..end] :: c in name;
    BeginningIsLike(name[..end], Decimal(n));
  }

  /** The new name has exactly the allowed length as long as the number leaves room for the
      name; beyond that the length of what is kept wraps, and all of the name is kept. */
  lemma SuffixedLength(origName: string, maxLen: nat, n: nat)
    requires maxLen <= |origName|
    ensures |Suffixed(origName, maxLen, n)| == maxLen <==> |Decimal(n)| < maxLen
    ensures |Decimal(n)| >= maxLen ==> Suffixed(origName, maxLen, n) == origName + "~" + Decimal(n)
    ensures |Decimal(n)| < maxLen ==>
      Suffixed(origName, maxLen, n) == origName[..maxLen - 1 - |Decimal(n)|] + "~" + Decimal(n)
  {
  }

  lemma SelectedIsNew(others: seq<string>, name: string, maxLen: nat, n: nat, v: string)
    requires IsNext(others, name, maxLen, n) && IsSelected(v, name, maxLen) && NumberOf(v) == n
    ensures v !in others
  {
  }

  /** A text that matches the mask made of prefix: escapes are resolved, wildcards stand for themselves. */
  function Resolved(prefix: string): string {
    if prefix == "" then ""
    else if prefix[0] == '\\' then
      if |prefix| == 1 then "" else [prefix[1]] + Resolved(prefix[2..])
    else [prefix[0]] + Resolved(prefix[1..])
  }

  lemma {:induction false} ResolvedIsLike(prefix: string, rest: string)
    ensures Like(Resolved(prefix) + "~" + rest, prefix + "~%")
    decreases |prefix|
  {
    var v, mask := Resolved(prefix) + "~" + rest, prefix + "~%";
    AnythingIsLikePercent(rest);
    if prefix == "" {
      assert v[1..] == rest && mask[1..] == "%";
    } else if prefix[0] != '\\' {
      ResolvedIsLike(prefix[1..], rest);
      assert v[1..] == Resolved(prefix[1..]) + "~" + rest && mask[1..] == prefix[1..] + "~%";
      if mask[0] == '%' { PercentTakesOne(v, mask); }
    } else if |prefix| == 1 {
      assert v == "~" + rest && v[1..] == rest && mask[2..] == "%" && mask[1] == '~';
    } else {
      ResolvedIsLike(prefix[2..], rest);
      assert v[1..] == Resolved(prefix[2..]) + "~" + rest && mask[2..] == prefix[2..] + "~%";
    }
  }

  /** A name with any number that the query selects. */
  function WithNumber(name: string, maxLen: nat, n: nat): string {
    Resolved(Cut(name, maxLen - 2)) + "~" + Decimal(n)
  }

  lemma WithNumberIsSelected(name: string, maxLen: nat, n: nat)
    ensures IsSelected(WithNumber(name, maxLen, n), name, maxLen)
    ensures NumberOf(WithNumber(name, maxLen, n)) == n
  {
    ResolvedIsLike(Cut(name, maxLen - 2), Decimal(n));
    NumberOfSuffixed(Resolved(Cut(name, maxLen - 2)), n);
  }

  /** In every table where n is the next number the new name is free. */
  ghost predicate NeverClashes(origName: string, maxLen: nat, n: nat)
    requires maxLen <= |origName|
  {
    forall others | IsNext(others, origName[..maxLen], maxLen, n) :: Suffixed(origName, maxLen, n) !in others
  }

  /** The new name is free in every table exactly if the query that looks for taken
      names would select it. */
  lemma FreeIffSelected(origName: string, maxLen: nat, n: nat)
    requires maxLen <= |origName| && n >= 1
    ensures NeverClashes(origName, maxLen, n)
      <==> IsSelected(Suffixed(origName, maxLen, n), origName[..maxLen], maxLen)
  {
    var name, v := origName[..maxLen], Suffixed(origName, maxLen, n);
    NumberOfSuffixed(Cut(origName, maxLen - 1 - |Decimal(n)|), n);
    if IsSelected(v, name, maxLen) {
      forall others | IsNext(others, name, maxLen, n) ensures v !in others {
        SelectedIsNew(others, name, maxLen, n, v);
      }
    } else {
      TakenUnseen(name, maxLen, n, v);
      var others := [WithNumber(name, maxLen, n - 1), v];
      assert others[1] in others;
    }
  }

  lemma TakenUnseen(name: string, maxLen: nat, n: nat, v: string)
    requires n >= 1 && !IsSelected(v, name, maxLen)
    ensures IsNext([WithNumber(name, maxLen, n - 1), v], name, maxLen, n)
  {
    WithNumberIsSelected(name, maxLen, n - 1);
    var others := [WithNumber(name, maxLen, n - 1), v];
    assert others[0] in others;
  }

  /** Neither a wildcard nor an escape, and no '~'. */
  predicate IsPlain(s: string) {
    '%' !in s && '_' !in s && '\\' !in s && '~' !in s
  }

  lemma {:induction false} LikePlain(v: string, prefix: string)
    requires IsPlain(prefix) && Like(v, prefix + "~%")
    ensures |v| > |prefix| && v[|prefix|] == '~'
  {
    var mask := prefix + "~%";
    if prefix != "" {
      assert mask[0] == prefix[0] && prefix[0] in prefix;
      assert mask[1..] == prefix[1..] + "~%";
      assert forall c | c in prefix[1..] :: c in prefix;
      LikePlain(v[1..], prefix[1..]);
    }
  }

  /** For plain names every number from 100 on escapes both masks, so it may clash. */
  lemma HundredsMayClash(origName: string, maxLen: nat, n: nat)
    requires 3 <= maxLen <= |origName| && IsPlain(origName[..maxLen]) && n >= 100
    ensures !IsSelected(Suffixed(origName, maxLen, n), origName[..maxLen], maxLen)
    ensures !NeverClashes(origName, maxLen, n)
  {
    var name, v := origName[..maxLen], Suffixed(origName, maxLen, n);
    PlainIsMissed(origName, maxLen, n, maxLen - 2);
    PlainIsMissed(origName, maxLen, n, maxLen - 3);
    var digits := |Decimal(n)|;
    assert v[|v| - digits - 1] == '~' && v[|v| - digits - 1] in v;
    assert v != name;
    FreeIffSelected(origName, maxLen, n);
  }

  lemma PlainIsMissed(origName: string, maxLen: nat, n: nat, end: nat)
    requires 3 <= maxLen <= |origName| && IsPlain(origName[..maxLen]) && n >= 100 && maxLen - 3 <= end <= maxLen - 2
    ensures !Like(Suffixed(origName, maxLen, n), Cut(origName[..maxLen], end) + "~%")
  {
    var name, v := origName[..maxLen], Suffixed(origName, maxLen, n);
    var prefix := Cut(name, end);
    assert forall c | c in prefix :: c in name;
    assert |Decimal(n)| >= 3;
    var at := maxLen - 1 - |Decimal(n)|;
    if at >= 0 {
      assert v[end] == Decimal(n)[end - at - 1] && Decimal(n)[end - at - 1] in Decimal(n);
    } else {
      assert v[end] == name[end] && name[end] in name;
    }
    if Like(v, prefix + "~%") { LikePlain(v, prefix); }
  }

  /** Up to 99 both masks are long enough, unless a backslash disables them. */
  lemma UpTo99IsFree(origName: string, maxLen: nat, n: nat)
    requires 3 <= maxLen <= |origName| && '\\' !in origName[..maxLen] && 1 <= n <= 99
    ensures NeverClashes(origName, maxLen, n)
  {
    SuffixedIsSelected(origName, maxLen, n);
    FreeIffSelected(origName, maxLen, n);
  }

  /** Up to the number 99, and without a backslash, the name has exactly the allowed
      length and nobody else has it. */
  lemma NormedIsUnique(origName: string, maxLen: nat, others: seq<string>, name: string)
    requires 3 <= maxLen <= |origName| && '\\' !in origName[..maxLen]
    requires IsNormed(origName, maxLen, others, name)
    requires forall v | v in others && IsSelected(v, origName[..maxLen], maxLen) :: NumberOf(v) < 99
    ensures |name| == maxLen && name !in others
  {
    if exists v :: v in others && IsSelected(v, origName[..maxLen], maxLen) {
      var n: nat :| IsNext(others, origName[..maxLen], maxLen, n) && name == Suffixed(origName, maxLen, n);
      SuffixedLength(origName, maxLen, n);
      UpTo99IsFree(origName, maxLen, n);
    } else {
      assert IsSelected(name, origName[..maxLen], maxLen);
    }
  }

  lemma NextIsNormed(origName: string, maxLen: nat, others: seq<string>, n: nat)
    requires maxLen <= |origName| && IsNext(others, origName[..maxLen], maxLen, n)
    ensures IsNormed(origName, maxLen, others, Suffixed(origName, maxLen, n))
  {
  }

  lemma SuffixedHundred()
    ensures Suffixed("abcdef", 5, 100) == "a~100"
  {
    Hundred();
    assert Cut("abcdef", 1) == "a";
    assert "a" + "~" + "100" == "a~100";
  }

  lemma Hundred()
    ensures Decimal(99) == "99" && Decimal(100) == "100"
  {
    assert Decimal(9) == "9" && Decimal(10) == Decimal(1) + "0" == "10";
    assert Decimal(99) == Decimal(9) + "9" && Decimal(100) == Decimal(10) + "0";
  }

  lemma HundredIsNotSelected()
    ensures IsSelected("abc~99", "abcde", 5) && !IsSelected("a~100", "abcde", 5)
  {
    assert Cut("abcde", 3) == "abc" && Cut("abcde", 2) == "ab";
    assert "abc" + "~" + "99" == "abc~99" && "abc" + "~%" == "abc~%" && "ab" + "~%" == "ab~%";
    BeginningIsLike("abc", "99");
    assert "a~100"[1..] == "~100" && "abc~%"[1..] == "bc~%" && "ab~%"[1..] == "b~%";
    assert !Like("~100", "bc~%") && !Like("~100", "b~%");
  }

  lemma HundredIsNext()
    ensures IsNext(["abc~99", "a~100"], "abcde", 5, 100)
  {
    HundredIsNotSelected();
    Hundred();
    NumberOfSuffixed("abc", 99);
    assert "abc" + "~" + "99" == "abc~99";
    assert ["abc~99", "a~100"][0] in ["abc~99", "a~100"];
  }

  /** The number 100 is one digit too long for both masks. */
  lemma HundredMayClash()
    ensures IsNormed("abcdef", 5, ["abc~99", "a~100"], "a~100")
  {
    assert "abcdef"[..5] == "abcde";
    HundredIsNext();
    NextIsNormed("abcdef", 5, ["abc~99", "a~100"], 100);
    SuffixedHundred();
  }

  lemma BackslashIsNext()
    ensures IsNext(["a\\cde", "a\\c~1"], "a\\cde", 5, 1)
  {
    assert Cut("a\\cde", 3) == "a\\c" && Cut("a\\cde", 2) == "a\\";
    assert "a\\c" + "~%" == "a\\c~%" && "a\\" + "~%" == "a\\~%";
    assert !Like("a\\c~1"[1..], "a\\c~%"[1..]) && !Like("a\\c~1"[1..], "a\\~%"[1..]);
    assert !IsSelected("a\\c~1", "a\\cde", 5) && IsSelected("a\\cde", "a\\cde", 5);
    NoTilde("a\\cde");
    assert ["a\\cde", "a\\c~1"][0] in ["a\\cde", "a\\c~1"];
  }

  /** A backslash in the name disables the mask. */
  lemma BackslashMayClash()
    ensures IsNormed("a\\cdef", 5, ["a\\cde", "a\\c~1"], "a\\c~1")
  {
    assert "a\\cdef"[..5] == "a\\cde";
    BackslashIsNext();
    NextIsNormed("a\\cdef", 5, ["a\\cde", "a\\c~1"], 1);
    assert Decimal(1) == "1" && Suffixed("a\\cdef", 5, 1) == "a\\c" + "~" + "1";
    assert "a\\c" + "~" + "1" == "a\\c~1";
  }

  lemma {:induction false} NoTilde(v: string)
    requires '~' !in v
    ensures Tail(v) == None && NumberOf(v) == 0
  {
    if v != "" { NoTilde(v[..|v| - 1]); }
  }
}
