/**
 * The student records of tool/HackEnrollment.c and the three friendship
 * scorers the enrollment tool registers on every course queue, with the
 * small helpers they use: case folding, the name distance, the numeric value
 * of an ID, the element count of a space-separated line and the linear
 * lookups.
 */
module Scoring {
  import opened Wrappers

  /** The number of characters in a student ID (tool/HackEnrollment.h). */
  const ID_SIZE: nat := 9
  /** The thresholds every course queue is created with (tool/HackEnrollment.h). */
  const FRIENDSHIP_THRESHOLD: int := 20
  const RIVALRY_THRESHOLD: int := 0

  const SPACE_CHAR: char := ' '

  /** A hacker's wishes: the indices of the desired courses in the course
      roster, and the identities of the students it befriends and rivals. */
  datatype Hacker = Hacker(courses: seq<nat>, friends: seq<nat>, rivals: seq<nat>)

  /** A student record. `ref` is the record's identity (the C code compares
      Student pointers); `hacker` is present for the students that are also
      hackers. */
  datatype Student = Student(ref: nat, id: string, name: string, surname: string, hacker: Option<Hacker>)

  // ---------------------------------------------------------------------------
  // countElementsInLine
  // ---------------------------------------------------------------------------

  /** The number of space-separated elements of a line: none for the empty
      line, otherwise one more than the number of spaces. */
  function ElementCount(line: string): nat
  {
    if line == [] then 0 else 1 + multiset(line)[SPACE_CHAR]
  }

  /** countElementsInLine: walks the line counting spaces. */
  method CountElementsInLine(line: string) returns (n: nat)
    ensures n == ElementCount(line)
  {
    if line == [] {
      return 0;
    }
    n := 1;
    var i := 0;
    while i < |line|
      invariant 0 <= i <= |line|
      invariant n == 1 + multiset(line[..i])[SPACE_CHAR]
    {
      assert line[..i + 1] == line[..i] + [line[i]];
      if line[i] == SPACE_CHAR {
        n := n + 1;
      }
      i := i + 1;
    }
    assert line[..i] == line;
  }

  /** The words joined by single spaces, as the tool writes them. */
  function Join(words: seq<string>): string
  {
    if |words| == 0 then []
    else if |words| == 1 then words[0]
    else Join(words[..|words| - 1]) + [SPACE_CHAR] + words[|words| - 1]
  }

  predicate IsWord(w: string)
  {
    w != [] && SPACE_CHAR !in w
  }

  /** Joining k non-empty words without spaces gives a line that
      countElementsInLine counts as k elements. */
  lemma {:induction false} JoinElementCount(words: seq<string>)
    requires forall i :: 0 <= i < |words| ==> IsWord(words[i])
    ensures ElementCount(Join(words)) == |words|
  {
    if |words| == 0 {
    } else if |words| == 1 {
      assert multiset(words[0])[SPACE_CHAR] == 0;
    } else {
      var init := words[..|words| - 1];
      var last := words[|words| - 1];
      JoinElementCount(init);
      assert multiset(last)[SPACE_CHAR] == 0;
      assert Join(init) != [] by { JoinNonEmpty(init); }
      assert multiset(Join(words)) == multiset(Join(init)) + multiset{SPACE_CHAR} + multiset(last);
    }
  }

  lemma {:induction false} JoinNonEmpty(words: seq<string>)
    requires |words| > 0
    requires forall i :: 0 <= i < |words| ==> IsWord(words[i])
    ensures Join(words) != []
  {
    if |words| > 1 {
      assert |Join(words)| >= |words[|words| - 1]|;
    }
  }

  // ---------------------------------------------------------------------------
  // lowerCaseChar, lowerCaseConditional, stringDiff
  // ---------------------------------------------------------------------------

  /** lowerCaseChar: an upper-case letter becomes its index in the alphabet
      (0 to 25); any other character keeps its code. */
  function LowerCaseChar(c: char): (r: int)
    ensures 0 <= r
    ensures 'A' <= c <= 'Z' ==> r < 26
    ensures !('A' <= c <= 'Z') ==> r == c as int
  {
    if 'A' <= c <= 'Z' then c as int - 'A' as int else c as int
  }

  function LowerCaseConditional(c: char, lowerCase: bool): (r: int)
    ensures 0 <= r
    ensures lowerCase && 'A' <= c <= 'Z' ==> r < 26
    ensures !(lowerCase && 'A' <= c <= 'Z') ==> r == c as int
  {
    if lowerCase then LowerCaseChar(c) else c as int
  }

  /** The folding does not identify an upper-case letter with its lower-case
      form: with folding on, 'A'..'Z' land below every printable character,
      so "A" and "a" differ by 97 instead of 0. */
  lemma FoldingSeparatesCases(c: char)
    requires 'A' <= c <= 'Z'
    ensures LowerCaseConditional(c, true) < 26
    ensures LowerCaseConditional(c, true) != LowerCaseConditional(c + 32 as char, true)
    ensures LowerCaseConditional(c + 32 as char, true) - LowerCaseConditional(c, true) == 97
  {
  }

  /** The contribution of position i to stringDiff: the folded character of
      the longer string past the end of the shorter one, else the absolute
      difference of the two folded characters. */
  function DiffTerm(s1: string, s2: string, lowerCase: bool, i: nat): (r: int)
    ensures 0 <= r
  {
    if i >= |s1| then (if i < |s2| then LowerCaseConditional(s2[i], lowerCase) else 0)
    else if i >= |s2| then LowerCaseConditional(s1[i], lowerCase)
    else Abs(LowerCaseConditional(s1[i], lowerCase) - LowerCaseConditional(s2[i], lowerCase))
  }

  function Abs(x: int): int
  {
    if x < 0 then -x else x
  }

  /** The sum of the first k terms. */
  function DiffUpTo(s1: string, s2: string, lowerCase: bool, k: nat): (r: int)
    ensures 0 <= r
  {
    if k == 0 then 0 else DiffUpTo(s1, s2, lowerCase, k - 1) + DiffTerm(s1, s2, lowerCase, k - 1)
  }

  function MaxLength(s1: string, s2: string): nat
  {
    if |s1| > |s2| then |s1| else |s2|
  }

  /** The distance stringDiff computes, over every position of the longer string. */
  function NameDistance(s1: string, s2: string, caseSensitive: bool): int
  {
    DiffUpTo(s1, s2, !caseSensitive, MaxLength(s1, s2))
  }

  /** stringDiff: the loop that sums the terms position by position. */
  method StringDiff(s1: string, s2: string, caseSensitive: bool) returns (sum: int)
    ensures sum == NameDistance(s1, s2, caseSensitive)
    ensures sum >= 0
  {
    var len := MaxLength(s1, s2);
    sum := 0;
    var i := 0;
    while i < len
      invariant 0 <= i <= len
      invariant sum == DiffUpTo(s1, s2, !caseSensitive, i)
    {
      if i >= |s1| {
        sum := sum + LowerCaseConditional(s2[i], !caseSensitive);
      } else if i >= |s2| {
        sum := sum + LowerCaseConditional(s1[i], !caseSensitive);
      } else {
        sum := sum + Abs(LowerCaseConditional(s1[i], !caseSensitive) - LowerCaseConditional(s2[i], !caseSensitive));
      }
      i := i + 1;
    }
  }

  /** The distance does not depend on the order of its arguments. */
  lemma {:induction false} DiffUpToSymmetric(s1: string, s2: string, lowerCase: bool, k: nat)
    ensures DiffUpTo(s1, s2, lowerCase, k) == DiffUpTo(s2, s1, lowerCase, k)
  {
    if k > 0 {
      DiffUpToSymmetric(s1, s2, lowerCase, k - 1);
    }
  }

  /** A string is at distance 0 from itself. */
  lemma {:induction false} DiffUpToSelf(s: string, lowerCase: bool, k: nat)
    requires k <= |s|
    ensures DiffUpTo(s, s, lowerCase, k) == 0
  {
    if k > 0 {
      DiffUpToSelf(s, lowerCase, k - 1);
    }
  }

  lemma NameDistanceProperties(s1: string, s2: string, caseSensitive: bool)
    ensures NameDistance(s1, s2, caseSensitive) == NameDistance(s2, s1, caseSensitive)
    ensures NameDistance(s1, s1, caseSensitive) == 0
  {
    DiffUpToSymmetric(s1, s2, !caseSensitive, MaxLength(s1, s2));
    DiffUpToSelf(s1, !caseSensitive, |s1|);
  }

  // ---------------------------------------------------------------------------
  // The three scorers
  // ---------------------------------------------------------------------------

  /** a is a hacker whose friend list holds b. */
  predicate Befriends(a: Student, b: Student)
  {
    a.hacker.Some? && b.ref in a.hacker.value.friends
  }

  /** a is a hacker whose rival list holds b. */
  predicate Rivals(a: Student, b: Student)
  {
    a.hacker.Some? && b.ref in a.hacker.value.rivals
  }

  /** checkFriend: a scan of the hacker's friend list for the student. */
  method CheckFriend(h: Hacker, s: Student) returns (found: bool)
    ensures found <==> s.ref in h.friends
  {
    var i := 0;
    while i < |h.friends|
      invariant 0 <= i <= |h.friends|
      invariant s.ref !in h.friends[..i]
    {
      if h.friends[i] == s.ref {
        return true;
      }
      assert h.friends[..i + 1] == h.friends[..i] + [h.friends[i]];
      i := i + 1;
    }
    assert h.friends[..i] == h.friends;
    found := false;
  }

  /** checkRival: a scan of the hacker's rival list for the student. */
  method CheckRival(h: Hacker, s: Student) returns (found: bool)
    ensures found <==> s.ref in h.rivals
  {
    var i := 0;
    while i < |h.rivals|
      invariant 0 <= i <= |h.rivals|
      invariant s.ref !in h.rivals[..i]
    {
      if h.rivals[i] == s.ref {
        return true;
      }
      assert h.rivals[..i + 1] == h.rivals[..i] + [h.rivals[i]];
      i := i + 1;
    }
    assert h.rivals[..i] == h.rivals;
    found := false;
  }

  /** friendshipFunction1: 20 for a friend, -20 for a rival, 0 otherwise.
      Person 1's lists are consulted first (friend before rival); person 2's
      verdict about person 1, when it has one, replaces it. */
  function FriendshipFunction1(p1: Student, p2: Student): (r: int)
    ensures r == 20 <==> Befriends(p2, p1) || (!Rivals(p2, p1) && Befriends(p1, p2))
    ensures r == -20 <==>
      (!Befriends(p2, p1) && Rivals(p2, p1)) ||
      (!Befriends(p2, p1) && !Rivals(p2, p1) && !Befriends(p1, p2) && Rivals(p1, p2))
    ensures r == 0 <==> !Befriends(p1, p2) && !Rivals(p1, p2) && !Befriends(p2, p1) && !Rivals(p2, p1)
  {
    var friendship :=
      if p1.hacker.Some? then
        (if p2.ref in p1.hacker.value.friends then 20
         else if p2.ref in p1.hacker.value.rivals then -20
         else 0)
      else 0;
    if p2.hacker.Some? then
      (if p1.ref in p2.hacker.value.friends then 20
       else if p1.ref in p2.hacker.value.rivals then -20
       else friendship)
    else friendship
  }

  /** The score is not symmetric: when each lists the other with opposite
      verdicts, the second argument's verdict wins either way. */
  lemma FriendshipFunction1Asymmetric()
    ensures var a := Student(0, "000000000", "A", "A", Some(Hacker([], [1], [])));
            var b := Student(1, "000000001", "B", "B", Some(Hacker([], [], [0])));
            FriendshipFunction1(a, b) == -20 && FriendshipFunction1(b, a) == 20
  {
    var a := Student(0, "000000000", "A", "A", Some(Hacker([], [1], [])));
    var b := Student(1, "000000001", "B", "B", Some(Hacker([], [], [0])));
    assert Rivals(b, a) && !Befriends(b, a);
    assert Befriends(a, b);
  }

  /** friendshipFunction2: the name distance plus the surname distance. */
  function FriendshipFunction2(p1: Student, p2: Student, caseSensitive: bool): (r: int)
    ensures r >= 0
  {
    NameDistance(p1.name, p2.name, caseSensitive) + NameDistance(p1.surname, p2.surname, caseSensitive)
  }

  /** friendshipFunction2Sensitive: the name score with characters compared as they are. */
  function FriendshipFunction2Sensitive(p1: Student, p2: Student): (r: int)
    ensures r >= 0
  {
    FriendshipFunction2(p1, p2, true)
  }

  /** friendshipFunction2Insensitive: the name score with lowerCaseChar applied first. */
  function FriendshipFunction2Insensitive(p1: Student, p2: Student): (r: int)
    ensures r >= 0
  {
    FriendshipFunction2(p1, p2, false)
  }

  /** The string holds no upper-case letter, so the folding leaves it alone. */
  predicate NoCapitals(s: string)
  {
    forall i :: 0 <= i < |s| ==> !('A' <= s[i] <= 'Z')
  }

  /** Without upper-case letters the folded and unfolded partial sums agree. */
  lemma {:induction false} DiffUpToWithoutCapitals(s1: string, s2: string, k: nat)
    requires NoCapitals(s1) && NoCapitals(s2)
    ensures DiffUpTo(s1, s2, true, k) == DiffUpTo(s1, s2, false, k)
  {
    if k > 0 {
      DiffUpToWithoutCapitals(s1, s2, k - 1);
      assert DiffTerm(s1, s2, true, k - 1) == DiffTerm(s1, s2, false, k - 1);
    }
  }

  /** The two name scorers agree on students whose names and surnames hold
      no upper-case letter. */
  lemma NameScoresAgreeWithoutCapitals(p1: Student, p2: Student)
    requires NoCapitals(p1.name) && NoCapitals(p2.name)
    requires NoCapitals(p1.surname) && NoCapitals(p2.surname)
    ensures FriendshipFunction2Sensitive(p1, p2) == FriendshipFunction2Insensitive(p1, p2)
  {
    DiffUpToWithoutCapitals(p1.name, p2.name, MaxLength(p1.name, p2.name));
    DiffUpToWithoutCapitals(p1.surname, p2.surname, MaxLength(p1.surname, p2.surname));
  }

  /** A worked case: names "A" and "a", empty surnames. The case-sensitive
      score is |65 - 97| = 32; the "insensitive" one folds 'A' to 0 and
      scores |0 - 97| = 97. */
  lemma NameScoresOnCase()
    ensures FriendshipFunction2Sensitive(Student(0, [], "A", [], None), Student(1, [], "a", [], None)) == 32
    ensures FriendshipFunction2Insensitive(Student(0, [], "A", [], None), Student(1, [], "a", [], None)) == 97
  {
    assert DiffTerm("A", "a", false, 0) == 32;
    assert DiffTerm("A", "a", true, 0) == 97;
  }

  /** The name score is symmetric and 0 between students with the same name
      and surname. */
  lemma FriendshipFunction2Properties(p1: Student, p2: Student, caseSensitive: bool)
    ensures FriendshipFunction2(p1, p2, caseSensitive) == FriendshipFunction2(p2, p1, caseSensitive)
    ensures p1.name == p2.name && p1.surname == p2.surname ==> FriendshipFunction2(p1, p2, caseSensitive) == 0
  {
    NameDistanceProperties(p1.name, p2.name, caseSensitive);
    NameDistanceProperties(p1.surname, p2.surname, caseSensitive);
  }

  predicate IsDigit(c: char)
  {
    '0' <= c <= '9'
  }

  predicate AllDigits(s: string)
  {
    forall i :: 0 <= i < |s| ==> IsDigit(s[i])
  }

  /** The length of the run of decimal digits at the start of s. */
  function DigitPrefixLength(s: string): (k: nat)
    ensures k <= |s|
    ensures AllDigits(s[..k])
    ensures k < |s| ==> !IsDigit(s[k])
    ensures AllDigits(s) ==> k == |s|
  {
    if s == [] || !IsDigit(s[0]) then 0
    else
      var k := 1 + DigitPrefixLength(s[1..]);
      assert s[..k] == [s[0]] + s[1..][..k - 1];
      k
  }

  /** The value of a string of decimal digits, most significant first. */
  function DigitsValue(s: string): nat
    requires AllDigits(s)
  {
    if s == [] then 0 else DigitsValue(s[..|s| - 1]) * 10 + (s[|s| - 1] as int - '0' as int)
  }

  /** atoi on an ID: the value of its leading decimal digits. */
  function Atoi(s: string): nat
  {
    var k := DigitPrefixLength(s);
    DigitsValue(s[..k])
  }

  /** friendshipFunction3: the distance between the two numeric IDs. */
  function FriendshipFunction3(p1: Student, p2: Student): (r: int)
    ensures r >= 0
    ensures r == 0 <==> Atoi(p1.id) == Atoi(p2.id)
  {
    Abs(Atoi(p1.id) - Atoi(p2.id))
  }

  /** An ID as the tool reads it: exactly ID_SIZE decimal digits. */
  predicate WellFormedId(id: string)
  {
    |id| == ID_SIZE && AllDigits(id)
  }

  /** Digit strings of equal length with equal values are equal. */
  lemma {:induction false} DigitsValueInjective(s: string, t: string)
    requires AllDigits(s) && AllDigits(t) && |s| == |t|
    requires DigitsValue(s) == DigitsValue(t)
    ensures s == t
  {
    if s != [] {
      var n := |s| - 1;
      assert s[n] == t[n] && DigitsValue(s[..n]) == DigitsValue(t[..n]) by {
        DecimalDigitSplit(DigitsValue(s[..n]), s[n] as int - '0' as int,
                          DigitsValue(t[..n]), t[n] as int - '0' as int);
      }
      DigitsValueInjective(s[..n], t[..n]);
      assert s == s[..n] + [s[n]];
      assert t == t[..n] + [t[n]];
    }
  }

  lemma DecimalDigitSplit(a: int, d: int, b: int, e: int)
    requires 0 <= d < 10 && 0 <= e < 10
    requires a * 10 + d == b * 10 + e
    ensures d == e && a == b
  {
    assert (a - b) * 10 == e - d;
  }

  lemma AtoiOfDigits(s: string)
    requires AllDigits(s)
    ensures Atoi(s) == DigitsValue(s)
  {
    assert s[..DigitPrefixLength(s)] == s;
  }

  /** Between well-formed IDs the ID score is symmetric and is 0 exactly
      when the IDs are equal. */
  lemma FriendshipFunction3Properties(p1: Student, p2: Student)
    requires WellFormedId(p1.id) && WellFormedId(p2.id)
    ensures FriendshipFunction3(p1, p2) == FriendshipFunction3(p2, p1)
    ensures FriendshipFunction3(p1, p2) == 0 <==> p1.id == p2.id
  {
    AtoiOfDigits(p1.id);
    AtoiOfDigits(p2.id);
    if Atoi(p1.id) == Atoi(p2.id) {
      DigitsValueInjective(p1.id, p2.id);
    }
  }

  // ---------------------------------------------------------------------------
  // Decimal output (the %d of the success lines)
  // ---------------------------------------------------------------------------

  function DigitChar(d: nat): char
    requires d < 10
  {
    ('0' as int + d) as char
  }

  /** The decimal digits of n, without leading zeros. */
  function NatString(n: nat): (r: string)
    ensures r != [] && AllDigits(r)
  {
    if n < 10 then [DigitChar(n)] else NatString(n / 10) + [DigitChar(n % 10)]
  }

  /** printf's %d: a minus sign for negative numbers, then the digits. */
  function DecimalString(n: int): (r: string)
    ensures IsWord(r)
  {
    var digits := if n < 0 then NatString(-n) else NatString(n);
    assert forall i :: 0 <= i < |digits| ==> digits[i] != SPACE_CHAR;
    if n < 0 then "-" + digits else digits
  }

  // ---------------------------------------------------------------------------
  // getStudentFromID
  // ---------------------------------------------------------------------------

  /** getStudentFromID: the first student of the roster with the given ID,
      or None (NULL) when there is none. */
  method GetStudentFromId(students: seq<Student>, id: string) returns (r: Option<nat>)
    ensures r.Some? ==> r.value < |students| && students[r.value].id == id &&
                        forall j :: 0 <= j < r.value ==> students[j].id != id
    ensures r.None? ==> forall j :: 0 <= j < |students| ==> students[j].id != id
  {
    var i := 0;
    while i < |students|
      invariant 0 <= i <= |students|
      invariant forall j :: 0 <= j < i ==> students[j].id != id
    {
      if students[i].id == id {
        return Some(i);
      }
      i := i + 1;
    }
    r := None;
  }
}
