/**
 * Instance naming of `$Object.generateInstanceName` (src/mixin_interface_api.js:134-156):
 * the class name is normalised into a snake_case prefix, and a per-class-name counter
 * supplies a decimal suffix. Characters are ASCII; `toLowerCase` only maps 'A'..'Z'.
 */
module Naming {

  predicate IsLower(c: char) { 'a' <= c <= 'z' }
  predicate IsUpper(c: char) { 'A' <= c <= 'Z' }

  // ---------------------------------------------------------------------------
  // String.prototype.replace with a string pattern: only the first occurrence
  // ---------------------------------------------------------------------------

  /** Position of the first `c` in `s`, or `|s|` when there is none. */
  function IndexOf(s: string, c: char): (i: nat)
    ensures i <= |s|
    ensures i < |s| ==> s[i] == c
    ensures c !in s[..i]
  {
    if s == [] then 0
    else if s[0] == c then 0
    else
      var j := IndexOf(s[1..], c);
      assert s[..1 + j] == [s[0]] + s[1..][..j];
      1 + j
  }

  /** `s.replace(c, rep)` where `c` is a one-character string. */
  function ReplaceFirst(s: string, c: char, rep: string): (r: string)
    ensures c !in s ==> r == s
    ensures |r| == |s| + (if c in s then |rep| - 1 else 0)
    ensures forall d :: d != c && d !in rep ==> (d in r <==> d in s)
  {
    var i := IndexOf(s, c);
    if i == |s| then s
    else
      assert s == s[..i] + [s[i]] + s[i + 1..];
      s[..i] + rep + s[i + 1..]
  }

  /** Any occurrence of `c` with no `c` before it is the one that is replaced. */
  lemma ReplaceFirstAt(s: string, c: char, rep: string, i: nat)
    requires i < |s| && s[i] == c && c !in s[..i]
    ensures ReplaceFirst(s, c, rep) == s[..i] + rep + s[i + 1..]
  {
    assert IndexOf(s, c) == i;
  }

  // ---------------------------------------------------------------------------
  // replace(/([a-z])([A-Z])/g, '$1_$2')
  // ---------------------------------------------------------------------------

  /**
   * The global regular-expression replacement: scanning left to right, a lower-case
   * letter followed by an upper-case letter is rewritten with '_' between them and
   * the scan resumes after the pair (matches cannot overlap).
   */
  function InsertBoundaries(s: string): (r: string)
    ensures |s| > 0 ==> |r| > 0 && r[0] == s[0]
  {
    if |s| < 2 then s
    else if IsLower(s[0]) && IsUpper(s[1]) then [s[0], '_', s[1]] + InsertBoundaries(s[2..])
    else [s[0]] + InsertBoundaries(s[1..])
  }

  /** Number of adjacent lower-case/upper-case pairs in `s`. */
  function Boundaries(s: string): (n: nat)
  {
    if |s| < 2 then 0
    else (if IsLower(s[0]) && IsUpper(s[1]) then 1 else 0) + Boundaries(s[1..])
  }

  /** `s` has no lower-case letter immediately followed by an upper-case letter. */
  predicate NoBoundary(s: string)
  {
    forall i :: 0 <= i < |s| - 1 ==> !(IsLower(s[i]) && IsUpper(s[i + 1]))
  }

  /**
   * Reference definition of the replacement, one character at a time: every character of
   * `s`, followed by '_' exactly when it is a lower-case letter and the next character is an
   * upper-case letter.
   */
  function Spaced(s: string): (r: string)
    ensures |s| > 0 ==> |r| > 0 && r[0] == s[0]
  {
    if s == [] then []
    else [s[0]] + (if |s| >= 2 && IsLower(s[0]) && IsUpper(s[1]) then "_" else "") + Spaced(s[1..])
  }

  /** The replacement inserts exactly one '_' per boundary. */
  lemma {:induction false} InsertBoundariesLength(s: string)
    ensures |InsertBoundaries(s)| == |s| + Boundaries(s)
  {
    if |s| < 2 {
    } else if IsLower(s[0]) && IsUpper(s[1]) {
      InsertBoundariesLength(s[2..]);
      assert Boundaries(s[1..]) == Boundaries(s[2..]);
    } else {
      InsertBoundariesLength(s[1..]);
    }
  }

  /**
   * The scan that resumes after each rewritten pair inserts '_' at exactly the positions the
   * per-character definition does: no boundary is missed and no '_' is added elsewhere.
   */
  lemma {:induction false} InsertBoundariesSpaced(s: string)
    ensures InsertBoundaries(s) == Spaced(s)
  {
    if |s| < 2 {
      if |s| == 1 {
        assert Spaced(s) == [s[0]] + "" + Spaced([]);
      }
    } else if IsLower(s[0]) && IsUpper(s[1]) {
      InsertBoundariesSpaced(s[2..]);
      SpacedPair(s);
    } else {
      InsertBoundariesSpaced(s[1..]);
    }
  }

  /** At a boundary the reference definition also writes the pair with '_' between. */
  lemma SpacedPair(s: string)
    requires |s| >= 2 && IsLower(s[0]) && IsUpper(s[1])
    ensures Spaced(s) == [s[0], '_', s[1]] + Spaced(s[2..])
  {
    var rest := Spaced(s[2..]);
    SpacedAfterUpper(s[1..]);
    assert s[1..][1..] == s[2..];
    assert [s[0]] + "_" + ([s[1]] + rest) == [s[0], '_', s[1]] + rest;
  }

  /** An upper-case letter is never followed by an inserted '_'. */
  lemma SpacedAfterUpper(t: string)
    requires |t| >= 1 && IsUpper(t[0])
    ensures Spaced(t) == [t[0]] + Spaced(t[1..])
  {
    assert !IsLower(t[0]);
    assert Spaced(t) == [t[0]] + "" + Spaced(t[1..]);
  }

  /** The replacement leaves no boundary behind. */
  lemma {:induction false} InsertBoundariesNoBoundary(s: string)
    ensures NoBoundary(InsertBoundaries(s))
  {
    if |s| < 2 {
    } else if IsLower(s[0]) && IsUpper(s[1]) {
      var rest := InsertBoundaries(s[2..]);
      InsertBoundariesNoBoundary(s[2..]);
      var r := [s[0], '_', s[1]] + rest;
      forall i | 0 <= i < |r| - 1
        ensures !(IsLower(r[i]) && IsUpper(r[i + 1]))
      {
        if i >= 3 {
          assert r[i] == rest[i - 3] && r[i + 1] == rest[i - 2];
        }
      }
    } else {
      var rest := InsertBoundaries(s[1..]);
      InsertBoundariesNoBoundary(s[1..]);
      var r := [s[0]] + rest;
      forall i | 0 <= i < |r| - 1
        ensures !(IsLower(r[i]) && IsUpper(r[i + 1]))
      {
        if i >= 1 {
          assert r[i] == rest[i - 1] && r[i + 1] == rest[i];
        }
      }
    }
  }

  // ---------------------------------------------------------------------------
  // toLowerCase, ASCII letters only
  // ---------------------------------------------------------------------------

  function LowerChar(c: char): (l: char)
  {
    if IsUpper(c) then (c as int + 32) as char else c
  }

  /** `s.toLowerCase()` restricted to ASCII letters. */
  function ToLower(s: string): (r: string)
    ensures |r| == |s|
    ensures forall i :: 0 <= i < |r| ==> !IsUpper(r[i])
    ensures forall i :: 0 <= i < |s| ==> (r[i] == s[i] <==> !IsUpper(s[i]))
    ensures forall i :: 0 <= i < |s| && IsUpper(s[i]) ==> IsLower(r[i])
    ensures forall i :: 0 <= i < |s| && IsUpper(s[i]) ==> r[i] as int == s[i] as int + 32
  {
    seq(|s|, i requires 0 <= i < |s| => LowerChar(s[i]))
  }

  // ---------------------------------------------------------------------------
  // The name prefix (lines 149-151)
  // ---------------------------------------------------------------------------

  /** `class_name.replace('.', '_').replace('$', 'mxi')` */
  function Preformat(className: string): (p: string)
    ensures '.' !in className && '$' !in className ==> p == className
    ensures |p| == |className| + (if '$' in className then 2 else 0)
    ensures forall c :: c !in "._$mxi" ==> (c in p <==> c in className)
  {
    var p1 := ReplaceFirst(className, '.', "_");
    assert '$' in p1 <==> '$' in className;
    ReplaceFirst(p1, '$', "mxi")
  }

  /** The snake_case prefix of every instance name of a class called `className`. */
  function SnakeCase(className: string): (prefix: string)
    ensures forall i :: 0 <= i < |prefix| ==> !IsUpper(prefix[i])
  {
    ToLower(InsertBoundaries(Preformat(className)))
  }

  /**
   * The prefix has no upper-case letter, and its length is the class name's, plus two
   * when a '$' became "mxi", plus one per inserted '_'.
   */
  lemma SnakeCaseShape(className: string)
    ensures forall i :: 0 <= i < |SnakeCase(className)| ==> !IsUpper(SnakeCase(className)[i])
    ensures |SnakeCase(className)| ==
            |className| + (if '$' in className then 2 else 0) + Boundaries(Preformat(className))
  {
    var p1 := ReplaceFirst(className, '.', "_");
    assert '$' in p1 <==> '$' in className;
    InsertBoundariesLength(Preformat(className));
  }

  // ---------------------------------------------------------------------------
  // Decimal suffix: the `+ count` string conversion
  // ---------------------------------------------------------------------------

  predicate IsDigit(c: char) { '0' <= c <= '9' }

  function DigitChar(d: nat): (c: char)
    requires d < 10
  {
    ('0' as int + d) as char
  }

  /** The decimal digits of `n`, as JavaScript converts an integer-valued number below 1e21. */
  function Digits(n: nat): (s: string)
    ensures |s| > 0
    ensures forall i :: 0 <= i < |s| ==> IsDigit(s[i])
  {
    if n < 10 then [DigitChar(n)] else Digits(n / 10) + [DigitChar(n % 10)]
  }

  /** The number a string of decimal digits denotes. */
  function DigitsValue(s: string): (n: nat)
    requires forall i :: 0 <= i < |s| ==> IsDigit(s[i])
  {
    if s == [] then 0
    else
      assert IsDigit(s[|s| - 1]);
      DigitsValue(s[..|s| - 1]) * 10 + (s[|s| - 1] as int - '0' as int)
  }

  /** Reading back the decimal representation gives the number. */
  lemma {:induction false} DigitsRoundTrip(n: nat)
    ensures DigitsValue(Digits(n)) == n
  {
    if n >= 10 {
      var s := Digits(n);
      assert s[..|s| - 1] == Digits(n / 10);
      DigitsRoundTrip(n / 10);
    }
  }

  lemma DigitsInjective(a: nat, b: nat)
    requires Digits(a) == Digits(b)
    ensures a == b
  {
    DigitsRoundTrip(a);
    DigitsRoundTrip(b);
  }

  // ---------------------------------------------------------------------------
  // The per-class-name counter (lines 137-147, 152-154)
  // ---------------------------------------------------------------------------

  /** `snake_case_class_name + '_' + count` */
  function InstanceName(className: string, count: nat): (name: string)
    ensures |name| > |SnakeCase(className)| + 1
    ensures name[..|SnakeCase(className)|] == SnakeCase(className)
    ensures name[|SnakeCase(className)|] == '_'
    ensures forall i :: |SnakeCase(className)| < i < |name| ==> IsDigit(name[i])
  {
    SnakeCase(className) + "_" + Digits(count)
  }

  /** For one class name, different counter values give different names. */
  lemma InstanceNameInjective(className: string, a: nat, b: nat)
    requires InstanceName(className, a) == InstanceName(className, b)
    ensures a == b
  {
    var p := SnakeCase(className) + "_";
    assert InstanceName(className, a)[|p|..] == Digits(a);
    assert InstanceName(className, b)[|p|..] == Digits(b);
    DigitsInjective(a, b);
  }

  /**
   * Names are unique per class NAME only: the counter is keyed by the raw class name,
   * while the name is built from its normalised form, so two class names that
   * normalise alike share names.
   */
  lemma NamesCollideAcrossClassNames()
    ensures "aB" != "a_b" && InstanceName("aB", 0) == InstanceName("a_b", 0) == "a_b_0"
  {
    assert IndexOf("aB", '.') == 2 && IndexOf("aB", '$') == 2;
    assert IndexOf("a_b", '.') == 3 && IndexOf("a_b", '$') == 3;
    assert Preformat("aB") == "aB" && Preformat("a_b") == "a_b";
    assert InsertBoundaries("aB") == "a_B";
    assert InsertBoundaries("_b") == "_b";
    assert InsertBoundaries("a_b") == "a_b";
    assert Digits(0) == "0";
  }

  /** Current counter for a class name; an absent entry reads as 0. */
  function CountOf(counts: map<string, nat>, className: string): (count: nat)
  {
    if className in counts then counts[className] else 0
  }

  /**
   * One call of `generateInstanceName` for a class called `className`: the name built
   * from the current count, and the counters afterwards.
   */
  function NextName(counts: map<string, nat>, className: string): (next: (string, map<string, nat>))
    ensures next.0 == InstanceName(className, CountOf(counts, className))
    ensures className in next.1 && next.1[className] == CountOf(counts, className) + 1
  {
    var count := CountOf(counts, className);
    (InstanceName(className, count), counts[className := count + 1])
  }

  /** Two writes of one counter keep the last. */
  lemma LastWriteWins(counts: map<string, nat>, className: string, a: nat, b: nat)
    ensures counts[className := a][className := b] == counts[className := b]
  {
  }

  /** `n` successive calls for the same class name. */
  function GenerateNames(counts: map<string, nat>, className: string, n: nat): (out: (seq<string>, map<string, nat>))
    decreases n
  {
    if n == 0 then ([], counts)
    else
      var (name, counts1) := NextName(counts, className);
      var (rest, counts2) := GenerateNames(counts1, className, n - 1);
      ([name] + rest, counts2)
  }

  /** The k-th of n successive names carries the suffix count + k. */
  lemma {:induction false} GenerateNamesSequential(counts: map<string, nat>, className: string, n: nat)
    ensures |GenerateNames(counts, className, n).0| == n
    ensures forall k :: 0 <= k < n ==>
      GenerateNames(counts, className, n).0[k] == InstanceName(className, CountOf(counts, className) + k)
    decreases n
  {
    if n > 0 {
      var (name, counts1) := NextName(counts, className);
      GenerateNamesSequential(counts1, className, n - 1);
      assert CountOf(counts1, className) == CountOf(counts, className) + 1;
      var names := GenerateNames(counts, className, n).0;
      var rest := GenerateNames(counts1, className, n - 1).0;
      assert names == [name] + rest;
      forall k | 0 <= k < n
        ensures names[k] == InstanceName(className, CountOf(counts, className) + k)
      {
        if k > 0 { assert names[k] == rest[k - 1]; }
      }
    }
  }

  /** After n successive names, only this class name's counter has changed: it advanced by n. */
  lemma {:induction false} GenerateNamesCounters(counts: map<string, nat>, className: string, n: nat)
    ensures GenerateNames(counts, className, n).1 ==
      if n == 0 then counts else counts[className := CountOf(counts, className) + n]
    decreases n
  {
    if n > 0 {
      var counts1 := NextName(counts, className).1;
      GenerateNamesCounters(counts1, className, n - 1);
      assert CountOf(counts1, className) == CountOf(counts, className) + 1;
      LastWriteWins(counts, className, CountOf(counts, className) + 1, CountOf(counts, className) + n);
    }
  }

  /** Successive names for one class name never repeat. */
  lemma GeneratedNamesDistinct(counts: map<string, nat>, className: string, n: nat, i: nat, j: nat)
    requires i < j < n
    ensures |GenerateNames(counts, className, n).0| == n
    ensures GenerateNames(counts, className, n).0[i] != GenerateNames(counts, className, n).0[j]
  {
    GenerateNamesSequential(counts, className, n);
    var c := CountOf(counts, className);
    if InstanceName(className, c + i) == InstanceName(className, c + j) {
      InstanceNameInjective(className, c + i, c + j);
    }
  }
}
