/** The random password generator of the user service: seed one character of each
    required class, then insert random characters at random positions until the
    length and distinct-character thresholds are both met. */
module PasswordGenerator {
  import opened Wrappers
  import Text

  /** The fields of ASP.NET Identity's `PasswordOptions` that the generator reads. */
  datatype PasswordOptions = PasswordOptions(
    requiredLength: int,
    requiredUniqueChars: int,
    requireDigit: bool,
    requireLowercase: bool,
    requireNonAlphanumeric: bool,
    requireUppercase: bool)

  /** The options used when the caller passes null. */
  const DefaultOptions := PasswordOptions(8, 4, true, true, true, true)

  function Effective(opts: Option<PasswordOptions>): PasswordOptions
  {
    if opts.None? then DefaultOptions else opts.value
  }

  /** The n consecutive code points from `first` on, leaving out the one at offset `skip`. */
  function Run(first: char, n: nat, skip: nat): (r: string)
    requires first as int + n < 0xD800
    ensures |r| == n
  {
    seq(n, i requires 0 <= i < n => (first as int + i + (if i >= skip then 1 else 0)) as char)
  }

  // The four fixed alphabets; upper and lower case leave out the ambiguous 'I' and 'l'.
  // The first three are written as code-point runs; AlphabetsAsWritten shows they are
  // the literals of the source.
  const Upper: string := Run('A', 25, 8)
  const Lower: string := Run('a', 25, 11)
  const Digits: string := Run('0', 10, 10)
  const Symbols: string := "!@$?_-"
  const RandomChars: seq<string> := [Upper, Lower, Digits, Symbols]

  /** `chars.Distinct()`, as a set. */
  function Chars(s: seq<char>): set<char>
  {
    set c | c in s
  }

  const AllChars: set<char> := Chars(Upper) + Chars(Lower) + Chars(Digits) + Chars(Symbols)

  /** The password holds a character of the given alphabet. */
  predicate HasCharFrom(s: seq<char>, alphabet: string)
  {
    exists c :: c in s && c in alphabet
  }

  /** What a generated password promises: the two thresholds and one character of
      every required class. */
  predicate MeetsPolicy(s: seq<char>, o: PasswordOptions)
  {
    |s| >= o.requiredLength && |Chars(s)| >= o.requiredUniqueChars && HasRequiredClasses(s, o)
  }

  predicate HasRequiredClasses(s: seq<char>, o: PasswordOptions)
  {
    && (o.requireUppercase ==> HasCharFrom(s, Upper))
    && (o.requireLowercase ==> HasCharFrom(s, Lower))
    && (o.requireDigit ==> HasCharFrom(s, Digits))
    && (o.requireNonAlphanumeric ==> HasCharFrom(s, Symbols))
  }

  // ---------------------------------------------------------------------------
  // The random source

  /** The random source: the raw value of its t-th draw. The generator's
      `new Random(Environment.TickCount)` becomes a stream given by the caller. */
  type Oracle = nat -> nat

  /** The t-th draw, read as `rand.Next(0, n)`: a value in [0, n), and 0 when n is 0. */
  function Next(stream: Oracle, t: nat, n: nat): (r: nat)
    ensures n == 0 ==> r == 0
    ensures n > 0 ==> r < n
  {
    if n == 0 then 0 else stream(t) % n
  }

  /** Every value that `rand.Next(0, n)` may return is one that `Next` returns for some stream. */
  lemma NextCoversRange(n: nat, r: nat, t: nat)
    requires r < n || r == n == 0
    ensures exists stream: Oracle :: Next(stream, t, n) == r
  {
    var stream: Oracle := _ => r;
    assert Next(stream, t, n) == r;
  }

  // ---------------------------------------------------------------------------
  // Insertion

  /** `List<char>.Insert(pos, c)`. */
  function Insert(s: seq<char>, pos: nat, c: char): (r: seq<char>)
    requires pos <= |s|
    ensures |r| == |s| + 1 && r[pos] == c
    ensures Chars(r) == Chars(s) + {c}
    ensures pos < |s| ==> r[|r| - 1] == s[|s| - 1]
  {
    var r := s[..pos] + [c] + s[pos..];
    assert s == s[..pos] + s[pos..];
    r
  }

  /** An insert adds exactly one character and removes none: taking the inserted one
      out again gives back the old list, in the same order. */
  lemma InsertKeepsOthers(s: seq<char>, pos: nat, c: char)
    requires pos <= |s|
    ensures Insert(s, pos, c)[..pos] + Insert(s, pos, c)[pos + 1..] == s
    ensures multiset(Insert(s, pos, c)) == multiset(s) + multiset{c}
  {
    var r := Insert(s, pos, c);
    assert r == s[..pos] + [c] + s[pos..];
    assert r[..pos] == s[..pos] && r[pos + 1..] == s[pos..];
    assert s == s[..pos] + s[pos..];
    calc {
      multiset(r);
      multiset(s[..pos]) + multiset{c} + multiset(s[pos..]);
      multiset(s[..pos] + s[pos..]) + multiset{c};
    }
  }

  /** The character that draw t picks from alphabet k, as `randomChars[k][rand.Next(0, randomChars[k].Length)]`. */
  function DrawChar(stream: Oracle, t: nat, k: nat): char
    requires k < |RandomChars|
  {
    RandomChars[k][Next(stream, t, |RandomChars[k]|)]
  }

  lemma DrawCharInAlphabet(stream: Oracle, t: nat, k: nat)
    requires k < |RandomChars|
    ensures DrawChar(stream, t, k) in RandomChars[k]
    ensures DrawChar(stream, t, k) in AllChars
  {
    assert DrawChar(stream, t, k) in Chars(RandomChars[k]);
  }

  /** One seeding step (UserService.cs lines 217-218 and the three like it): draw an insert position
      from [0, Count), then draw a character of alphabet k, and insert it. */
  function SeedInsert(chars: seq<char>, k: nat, stream: Oracle, t: nat): (r: seq<char>)
    requires k < |RandomChars|
    ensures |r| == |chars| + 1
    ensures Chars(r) == Chars(chars) + {DrawChar(stream, t + 1, k)}
    ensures |chars| > 0 ==> r[|r| - 1] == chars[|chars| - 1]
    ensures |chars| == 0 ==> r == [DrawChar(stream, t + 1, k)]
  {
    Insert(chars, Next(stream, t, |chars|), DrawChar(stream, t + 1, k))
  }

  /** The character that a loop iteration starting at draw t inserts: the class from
      draw t, the character from draw t + 2 (draw t + 1 is the position). */
  function LoopChar(stream: Oracle, t: nat): char
  {
    DrawChar(stream, t + 2, Next(stream, t, |RandomChars|))
  }

  /** Number of draws the seeding consumes: two per required class. */
  function SeedDraws(o: PasswordOptions): nat
  {
    (if o.requireUppercase then 2 else 0) + (if o.requireLowercase then 2 else 0)
    + (if o.requireDigit then 2 else 0) + (if o.requireNonAlphanumeric then 2 else 0)
  }

  /** The character inserted by loop iteration k. */
  function IterChar(stream: Oracle, base: nat, k: nat): char
  {
    LoopChar(stream, base + 3 * k)
  }

  /** The character c is inserted by some loop iteration at or after k. */
  ghost predicate DrawnFrom(stream: Oracle, base: nat, k: nat, c: char)
  {
    exists j: nat :: k <= j && IterChar(stream, base, j) == c
  }

  /** Fairness of the random source: after any loop iteration, every character of the
      four alphabets is inserted again by some later iteration. */
  ghost predicate Fair(stream: Oracle, base: nat)
  {
    forall k: nat, c :: c in AllChars ==> DrawnFrom(stream, base, k, c)
  }

  /** The first character seeded, if any class is required: it is drawn at draw 1. */
  function FirstSeed(o: PasswordOptions, stream: Oracle): Option<char>
  {
    if o.requireUppercase then Some(DrawChar(stream, 1, 0))
    else if o.requireLowercase then Some(DrawChar(stream, 1, 1))
    else if o.requireDigit then Some(DrawChar(stream, 1, 2))
    else if o.requireNonAlphanumeric then Some(DrawChar(stream, 1, 3))
    else None
  }

  /** The string is non-empty and ends with the given character, if one is given. */
  predicate EndsWith(s: seq<char>, last: Option<char>)
  {
    last.Some? ==> |s| > 0 && s[|s| - 1] == last.value
  }

  /** The last character, if any. */
  function Last(s: seq<char>): Option<char>
  {
    if |s| == 0 then None else Some(s[|s| - 1])
  }

  function Deficit(required: int, have: int): nat
  {
    if have < required then required - have else 0
  }

  // ---------------------------------------------------------------------------
  // The generator

  /** UserService.cs lines 215-237: one random character of each required class, in the order upper,
      lower, digit, symbol, each inserted at a position drawn from [0, Count). */
  method SeedRequiredClasses(o: PasswordOptions, stream: Oracle) returns (chars: seq<char>, t: nat)
    ensures t == SeedDraws(o) && |chars| == t / 2
    ensures Chars(chars) <= AllChars
    ensures HasRequiredClasses(chars, o)
    ensures Last(chars) == FirstSeed(o, stream)
  {
    chars, t := [], 0;
    if o.requireUppercase {
      ghost var before := Chars(chars);
      chars := SeedInsert(chars, 0, stream, t);
      DrawCharInAlphabet(stream, t + 1, 0);
      AddToSubset(before, DrawChar(stream, t + 1, 0), AllChars);
      t := t + 2;
    }
    if o.requireLowercase {
      ghost var before := Chars(chars);
      chars := SeedInsert(chars, 1, stream, t);
      DrawCharInAlphabet(stream, t + 1, 1);
      AddToSubset(before, DrawChar(stream, t + 1, 1), AllChars);
      t := t + 2;
    }
    if o.requireDigit {
      ghost var before := Chars(chars);
      chars := SeedInsert(chars, 2, stream, t);
      DrawCharInAlphabet(stream, t + 1, 2);
      AddToSubset(before, DrawChar(stream, t + 1, 2), AllChars);
      t := t + 2;
    }
    if o.requireNonAlphanumeric {
      ghost var before := Chars(chars);
      chars := SeedInsert(chars, 3, stream, t);
      DrawCharInAlphabet(stream, t + 1, 3);
      AddToSubset(before, DrawChar(stream, t + 1, 3), AllChars);
      t := t + 2;
    }
  }

  /** `GenerateRandomPassword`. It terminates when at most 66 distinct characters are
      asked for and the random source is fair; otherwise the source loops forever. */
  method GenerateRandomPassword(opts: Option<PasswordOptions>, stream: Oracle) returns (password: string)
    requires Effective(opts).requiredUniqueChars <= 66
    requires Fair(stream, SeedDraws(Effective(opts)))
    ensures MeetsPolicy(password, Effective(opts))
    ensures Chars(password) <= AllChars
    ensures EndsWith(password, FirstSeed(Effective(opts), stream))
  {
    var o := Effective(opts);
    var chars, t := SeedRequiredClasses(o, stream);
    password := FillUp(o, chars, stream, t);
    ClassesKept(chars, password, o);
  }

  /** UserService.cs lines 239-245: insert random characters at random positions, starting at draw
      `base`, until the password is long enough and has enough distinct characters.
      Characters are only added and the last one never moves. */
  method FillUp(o: PasswordOptions, seeded: seq<char>, stream: Oracle, base: nat) returns (chars: seq<char>)
    requires o.requiredUniqueChars <= 66
    requires Fair(stream, base)
    requires Chars(seeded) <= AllChars
    ensures |chars| >= o.requiredLength && |Chars(chars)| >= o.requiredUniqueChars
    ensures Chars(seeded) <= Chars(chars) <= AllChars
    ensures multiset(seeded) <= multiset(chars)
    ensures EndsWith(chars, Last(seeded))
  {
    AllCharsSize();
    chars := seeded;
    var t := base;
    ghost var k: nat := 0;
    ghost var target: char := 'A';
    ghost var due: nat := 0;
    if |Chars(chars)| < o.requiredUniqueChars {
      target, due := PickMissing(stream, base, k, Chars(chars));
    }
    var i := |chars|;
    while i < o.requiredLength || |Chars(chars)| < o.requiredUniqueChars
      invariant i == |chars| && t == base + 3 * k
      invariant Chars(seeded) <= Chars(chars) <= AllChars
      invariant multiset(seeded) <= multiset(chars)
      invariant EndsWith(chars, Last(seeded))
      invariant |Chars(chars)| < o.requiredUniqueChars ==>
                  target in AllChars && target !in Chars(chars) && k <= due && IterChar(stream, base, due) == target
      decreases Deficit(o.requiredUniqueChars, |Chars(chars)|),
                if |Chars(chars)| < o.requiredUniqueChars then due - k else Deficit(o.requiredLength, i)
    {
      ghost var before := Chars(chars);
      ghost var drawn := IterChar(stream, base, k);
      IterCharAt(stream, base, k, t);
      chars := InsertRandomChar(chars, stream, t);
      assert drawn in Chars(chars);
      AddToSubset(before, drawn, AllChars);
      AddOneCard(before, drawn);
      t := t + 3;
      i := i + 1;
      k := k + 1;
      if |Chars(chars)| < o.requiredUniqueChars {
        if target in Chars(chars) {
          target, due := PickMissing(stream, base, k, Chars(chars));
        } else {
          assert drawn != target && due != k - 1;
        }
      }
    }
  }

  /** Loop iteration k starts at draw base + 3k. */
  lemma IterCharAt(stream: Oracle, base: nat, k: nat, t: nat)
    requires t == base + 3 * k
    ensures IterChar(stream, base, k) == LoopChar(stream, t)
  {
  }

  /** UserService.cs lines 242-244, one loop iteration: draw a class, then a position in [0, Count), then a
      character of that class, and insert it. */
  method InsertRandomChar(chars: seq<char>, stream: Oracle, t: nat) returns (r: seq<char>)
    ensures |r| == |chars| + 1
    ensures Chars(r) == Chars(chars) + {LoopChar(stream, t)}
    ensures LoopChar(stream, t) in AllChars
    ensures |chars| > 0 ==> r[|r| - 1] == chars[|chars| - 1]
    ensures multiset(r) == multiset(chars) + multiset{LoopChar(stream, t)}
  {
    var cls := Next(stream, t, |RandomChars|);
    var pos := Next(stream, t + 1, |chars|);
    r := Insert(chars, pos, DrawChar(stream, t + 2, cls));
    InsertKeepsOthers(chars, pos, DrawChar(stream, t + 2, cls));
    DrawCharInAlphabet(stream, t + 2, cls);
  }

  lemma AddOneCard(a: set<char>, c: char)
    ensures |a + {c}| == if c in a then |a| else |a| + 1
  {
    if c in a {
      assert a + {c} == a;
    }
  }

  lemma AddToSubset(a: set<char>, c: char, b: set<char>)
    requires a <= b && c in b
    ensures a + {c} <= b
  {
  }

  /** Characters are only ever added, so every class present after seeding is still present. */
  lemma ClassesKept(s: seq<char>, s': seq<char>, o: PasswordOptions)
    requires Chars(s) <= Chars(s') && HasRequiredClasses(s, o)
    ensures HasRequiredClasses(s', o)
  {
    forall alphabet | HasCharFrom(s, alphabet) ensures HasCharFrom(s', alphabet) {
      var c :| c in s && c in alphabet;
      assert c in Chars(s);
    }
  }

  /** A character of the alphabets not yet present, and a later iteration that inserts it. */
  lemma PickMissing(stream: Oracle, base: nat, k: nat, seen: set<char>) returns (c: char, j: nat)
    requires Fair(stream, base)
    requires seen <= AllChars && |seen| < |AllChars|
    ensures c in AllChars && c !in seen && k <= j && IterChar(stream, base, j) == c
  {
    if AllChars <= seen {
      SubsetCard(AllChars, seen);
      assert false;
    }
    c :| c in AllChars && c !in seen;
    assert DrawnFrom(stream, base, k, c);
    j :| k <= j && IterChar(stream, base, j) == c;
  }

  lemma {:induction false} SubsetCard(a: set<char>, b: set<char>)
    requires a <= b
    ensures |a| <= |b|
  {
    assert b == a + (b - a);
  }

  // ---------------------------------------------------------------------------
  // The size of the alphabets

  lemma AlphabetsAsWritten()
    ensures Upper == "ABCDEFGHJKLMNOPQRSTUVWXYZ"
    ensures Lower == "abcdefghijkmnopqrstuvwxyz"
    ensures Digits == "0123456789"
  {
  }

  predicate Increasing(s: string)
  {
    forall i :: 0 <= i < |s| - 1 ==> s[i] < s[i + 1]
  }

  lemma {:induction false} IncreasingMonotone(s: string, i: nat, j: nat)
    requires Increasing(s) && i <= j < |s|
    ensures s[i] <= s[j]
    decreases j - i
  {
    if i < j {
      IncreasingMonotone(s, i + 1, j);
    }
  }

  /** A strictly increasing string has as many distinct characters as it is long. */
  lemma {:induction false} IncreasingChars(s: string)
    requires Increasing(s)
    ensures |Chars(s)| == |s|
  {
    if |s| > 0 {
      var rest := s[1..];
      assert Increasing(rest) by {
        forall i | 0 <= i < |rest| - 1 ensures rest[i] < rest[i + 1] {
          assert rest[i] == s[i + 1] && rest[i + 1] == s[i + 2];
        }
      }
      IncreasingChars(rest);
      forall i | 0 <= i < |rest| ensures rest[i] != s[0] {
        IncreasingMonotone(s, 1, i + 1);
        assert s[0] < s[1] && rest[i] == s[i + 1];
      }
      assert Chars(s) == {s[0]} + Chars(rest) by {
        assert s == [s[0]] + rest;
      }
      assert s[0] !in Chars(rest);
    }
  }

  lemma CharsAppend(a: string, b: string)
    ensures Chars(a + b) == Chars(a) + Chars(b)
  {
    forall c ensures c in a + b <==> c in a || c in b {
      if c in a + b {
        var i :| 0 <= i < |a + b| && (a + b)[i] == c;
        if i >= |a| {
          assert b[i - |a|] == c;
        }
      }
      if c in b {
        var i :| 0 <= i < |b| && b[i] == c;
        assert (a + b)[|a| + i] == c;
      }
    }
  }

  /** Two increasing strings, the first ending below where the second starts, run
      together into an increasing string. */
  lemma IncreasingAppend(a: string, b: string)
    requires Increasing(a) && Increasing(b)
    requires |a| > 0 && |b| > 0 && a[|a| - 1] < b[0]
    ensures Increasing(a + b)
  {
    var s := a + b;
    forall i | 0 <= i < |s| - 1 ensures s[i] < s[i + 1] {
      if i + 1 < |a| {
        assert s[i] == a[i] && s[i + 1] == a[i + 1];
      } else if i + 1 == |a| {
        assert s[i] == a[|a| - 1] && s[i + 1] == b[0];
      } else {
        assert s[i] == b[i - |a|] && s[i + 1] == b[i + 1 - |a|];
      }
    }
  }

  /** The four alphabets, sorted by code point and run together. */
  const Sorted: string := "!$-" + Digits + "?@" + Upper + "_" + Lower

  lemma SortedIncreasing()
    ensures Increasing(Sorted)
  {
    assert Increasing(Upper) && Increasing(Lower) && Increasing(Digits);
    assert Increasing("!$-") && Increasing("?@") && Increasing("_");
    IncreasingAppend("!$-", Digits);
    IncreasingAppend("!$-" + Digits, "?@");
    IncreasingAppend("!$-" + Digits + "?@", Upper);
    IncreasingAppend("!$-" + Digits + "?@" + Upper, "_");
    IncreasingAppend("!$-" + Digits + "?@" + Upper + "_", Lower);
  }

  lemma SortedChars()
    ensures Chars(Sorted) == AllChars && |Sorted| == 66
  {
    CharsAppend("!$-" + Digits + "?@" + Upper + "_", Lower);
    CharsAppend("!$-" + Digits + "?@" + Upper, "_");
    CharsAppend("!$-" + Digits + "?@", Upper);
    CharsAppend("!$-" + Digits, "?@");
    CharsAppend("!$-", Digits);
    assert Chars(Symbols) == Chars("!$-") + Chars("?@") + Chars("_");
  }

  /** The four alphabets hold 25 + 25 + 10 + 6 = 66 distinct characters. */
  lemma AllCharsSize()
    ensures |AllChars| == 66
  {
    SortedIncreasing();
    IncreasingChars(Sorted);
    SortedChars();
  }

  /** Every character of the alphabets lies between '!' and 'z'. */
  lemma AllCharsPrintable(c: char)
    requires c in AllChars
    ensures '!' <= c <= 'z'
  {
    if c in Chars(Upper) {
      var i :| 0 <= i < |Upper| && Upper[i] == c;
    } else if c in Chars(Lower) {
      var i :| 0 <= i < |Lower| && Lower[i] == c;
    } else if c in Chars(Digits) {
      var i :| 0 <= i < |Digits| && Digits[i] == c;
    } else {
      var i :| 0 <= i < |Symbols| && Symbols[i] == c;
    }
  }

  /** No character of the alphabets is white space, so a generated password of
      positive length is never blank. */
  lemma AlphabetsNotWhiteSpace(s: string)
    requires |s| > 0
    requires forall i :: 0 <= i < |s| ==> s[i] in AllChars
    ensures !Text.IsNullOrWhiteSpace(Some(s))
  {
    AllCharsPrintable(s[0]);
  }
}
