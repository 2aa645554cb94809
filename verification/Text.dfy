/** The C library text routines the repository leans on: decimal printing (`%d`, `%i`),
    `atoi`, and splitting into the maximal runs that `fscanf("%s")` and `strtok` deliver. */
module Text {

  datatype Option<+T> = None | Some(value: T)

  // The characters `isspace` accepts: what `fscanf("%s")` and `atoi` skip.
  const WHITESPACE: set<char> := {' ', '\t', '\n', '\r', '\U{0B}', '\U{0C}'}

  predicate IsDigit(c: char) {
    '0' <= c <= '9'
  }

  /** Decimal text of a non-negative number. */
  function Itoa(n: nat): (s: string)
    ensures |s| > 0 && forall c | c in s :: IsDigit(c)
  {
    if n < 10 then [('0' as int + n) as char] else Itoa(n / 10) + [('0' as int + n % 10) as char]
  }

  /** `acc` followed by the leading digits of `s`, as a number. */
  function DigitRun(s: string, acc: nat): nat {
    if s == "" || !IsDigit(s[0]) then acc
    else DigitRun(s[1..], 10 * acc + (s[0] as int - '0' as int))
  }

  /** `atoi`: white space, an optional sign, then the leading digits; 0 when there are none. */
  function Atoi(s: string): int {
    if s == "" then 0
    else if s[0] in WHITESPACE then Atoi(s[1..])
    else if s[0] == '-' then -(DigitRun(s[1..], 0) as int)
    else if s[0] == '+' then DigitRun(s[1..], 0)
    else DigitRun(s, 0)
  }

  /** Length of the leading run of `s` that contains no delimiter. */
  function RunLength(s: string, delims: set<char>): (n: nat)
    ensures n <= |s|
    ensures forall i | 0 <= i < n :: s[i] !in delims
    ensures n < |s| ==> s[n] in delims
  {
    if s == "" || s[0] in delims then 0 else 1 + RunLength(s[1..], delims)
  }

  /** The maximal delimiter-free runs of `s`, in order. */
  function Fields(s: string, delims: set<char>): seq<string>
    decreases |s|
  {
    if s == "" then []
    else if s[0] in delims then Fields(s[1..], delims)
    else
      var n := RunLength(s, delims);
      [s[..n]] + Fields(s[n..], delims)
  }

  /** Python's `delimiter.join(words)` for a one-character delimiter. */
  function Join(words: seq<string>, delimiter: char): string {
    if words == [] then ""
    else if |words| == 1 then words[0]
    else words[0] + [delimiter] + Join(words[1..], delimiter)
  }

  ghost predicate IsWord(w: string, delims: set<char>) {
    w != "" && forall c | c in w :: c !in delims
  }

  // ----- lemmas

  lemma {:induction false} DigitRunItoa(n: nat, rest: string, acc: nat)
    requires rest == "" || !IsDigit(rest[0])
    requires acc == 0
    ensures DigitRun(Itoa(n) + rest, acc) == n
  {
    DigitRunPrefix(n, rest);
    assert DigitRun(rest, n) == n;
  }

  lemma {:induction false} DigitRunPrefix(n: nat, rest: string)
    ensures DigitRun(Itoa(n) + rest, 0) == DigitRun(rest, n)
  {
    if n < 10 {
      assert (Itoa(n) + rest)[1..] == rest;
    } else {
      var last := [('0' as int + n % 10) as char];
      assert Itoa(n) + rest == Itoa(n / 10) + (last + rest);
      DigitRunPrefix(n / 10, last + rest);
      assert (last + rest)[1..] == rest;
    }
  }

  /** Printing a number and reading it back with `atoi` is the identity, whatever non-digit follows. */
  lemma AtoiItoa(n: nat, rest: string)
    requires rest == "" || !IsDigit(rest[0])
    ensures Atoi(Itoa(n) + rest) == n
  {
    DigitRunItoa(n, rest, 0);
    assert IsDigit((Itoa(n) + rest)[0]) by { assert (Itoa(n) + rest)[0] == Itoa(n)[0] && Itoa(n)[0] in Itoa(n); }
  }

  lemma {:induction false} DigitRunSnoc(s: string, c: char, acc: nat)
    requires (forall d | d in s :: IsDigit(d)) && IsDigit(c)
    ensures DigitRun(s + [c], acc) == 10 * DigitRun(s, acc) + (c as int - '0' as int)
  {
    if s == "" {
      assert s + [c] == [c] && [c][1..] == "";
    } else {
      assert s[0] in s && (s + [c])[1..] == s[1..] + [c] && forall d | d in s[1..] :: d in s;
      DigitRunSnoc(s[1..], c, 10 * acc + (s[0] as int - '0' as int));
    }
  }

  /** Without its first digit a positive number is smaller. */
  lemma {:induction false} TailSmaller(n: nat)
    requires n > 0
    ensures DigitRun(Itoa(n)[1..], 0) < n
  {
    if n >= 10 {
      var front, c := Itoa(n / 10), ('0' as int + n % 10) as char;
      assert Itoa(n)[1..] == front[1..] + [c];
      assert forall d | d in front[1..] :: d in front;
      DigitRunSnoc(front[1..], c, 0);
      TailSmaller(n / 10);
    }
  }

  /** `atoi` on digits only. */
  lemma AtoiDigits(s: string)
    requires forall d | d in s :: IsDigit(d)
    ensures Atoi(s) == DigitRun(s, 0)
  {
    if s != "" {
      assert s[0] in s;
    }
  }

  lemma {:induction false} AtoiSkips(space: string, rest: string)
    requires forall c | c in space :: c in WHITESPACE
    ensures Atoi(space + rest) == Atoi(rest)
  {
    if space == "" {
      assert space + rest == rest;
    } else {
      assert space[0] in space && (space + rest)[1..] == space[1..] + rest && forall c | c in space[1..] :: c in space;
      AtoiSkips(space[1..], rest);
    }
  }

  lemma {:induction false} RunLengthWord(w: string, rest: string, delims: set<char>)
    requires forall c | c in w :: c !in delims
    requires rest == "" || rest[0] in delims
    ensures RunLength(w + rest, delims) == |w|
  {
    if w != "" {
      assert (w + rest)[1..] == w[1..] + rest;
      assert (w + rest)[0] == w[0] && w[0] in w;
      RunLengthWord(w[1..], rest, delims);
    } else {
      assert w + rest == rest;
    }
  }

  /** A word followed by a delimiter is read as one field. */
  lemma FieldsWord(w: string, c: char, rest: string, delims: set<char>)
    requires IsWord(w, delims) && c in delims
    ensures Fields(w + [c] + rest, delims) == [w] + Fields(rest, delims)
  {
    var s := w + [c] + rest;
    assert s == w + ([c] + rest);
    assert s[0] == w[0] && w[0] in w;
    RunLengthWord(w, [c] + rest, delims);
    assert s[..|w|] == w && s[|w|..] == [c] + rest && ([c] + rest)[1..] == rest;
  }

  /** A word at the very end of the text is read as one field. */
  lemma FieldsLastWord(w: string, delims: set<char>)
    requires IsWord(w, delims)
    ensures Fields(w, delims) == [w]
  {
    assert w[0] in w;
    assert w + "" == w;
    RunLengthWord(w, "", delims);
    assert w[..|w|] == w && w[|w|..] == "";
  }

  /** Splitting undoes joining, for non-empty words free of the delimiter. */
  lemma {:induction false} FieldsJoin(words: seq<string>, delimiter: char)
    requires forall w | w in words :: IsWord(w, {delimiter})
    ensures Fields(Join(words, delimiter), {delimiter}) == words
  {
    if |words| == 0 {
    } else if |words| == 1 {
      FieldsLastWord(words[0], {delimiter});
    } else {
      FieldsJoin(words[1..], delimiter);
      FieldsWord(words[0], delimiter, Join(words[1..], delimiter), {delimiter});
    }
  }

  lemma {:induction false} JoinIsWord(words: seq<string>, delimiter: char, delims: set<char>)
    requires words != [] && delimiter !in delims
    requires forall w | w in words :: IsWord(w, delims)
    ensures IsWord(Join(words, delimiter), delims)
  {
    if |words| > 1 {
      JoinIsWord(words[1..], delimiter, delims);
    }
    assert words[0] in words;
  }

  lemma ThousandDigits()
    ensures Itoa(1000) == "1000"
  {
    assert Itoa(1) == "1";
    assert Itoa(10) == "1" + "0";
    assert Itoa(100) == "10" + "0";
    assert Itoa(1000) == "100" + "0";
  }

  /** Larger numbers do not have fewer digits. */
  lemma {:induction false} ItoaLonger(m: nat, n: nat)
    requires m <= n
    ensures |Itoa(m)| <= |Itoa(n)|
  {
    if m >= 10 {
      ItoaLonger(m / 10, n / 10);
    }
  }

  lemma {:induction false} DigitRunShort(s: string, acc: nat)
    ensures |Itoa(DigitRun(s, acc))| <= |Itoa(acc)| + |s|
  {
    if s != "" && IsDigit(s[0]) {
      DigitRunShort(s[1..], 10 * acc + (s[0] as int - '0' as int));
    }
  }

  /** A positive number is not read from fewer characters than it has digits. */
  lemma {:induction false} AtoiShort(s: string)
    requires Atoi(s) > 0
    ensures |Itoa(Atoi(s))| <= |s|
  {
    if s[0] in WHITESPACE {
      AtoiShort(s[1..]);
    } else {
      var digits := if s[0] == '+' then s[1..] else s;
      assert Atoi(s) == DigitRun(digits, 0) && digits != "" && IsDigit(digits[0]);
      DigitRunShort(digits[1..], digits[0] as int - '0' as int);
    }
  }
}
