/**
  The student register of `StudentManagement`: a list of students kept in
  insertion order, an append, a removal of the first student whose name
  matches ignoring case, and a listing. Console output is returned as the
  lines that would be written.
 */
module Students {
  import opened Outcomes
  import opened Text

  /** The values of a C# `int`. */
  type Int32 = x: int | -0x8000_0000 <= x < 0x8000_0000

  datatype Student = Student(name: string, age: Int32, major: string)

  // Decimal rendering of the age.

  predicate IsDigit(c: char) {
    '0' <= c <= '9'
  }

  predicate AllDigits(s: string) {
    forall k :: 0 <= k < |s| ==> IsDigit(s[k])
  }

  function DigitChar(d: nat): (c: char)
    requires d < 10
    ensures IsDigit(c) && c as int - '0' as int == d
  {
    ('0' as int + d) as char
  }

  /** The decimal digits of `n`, most significant first, with no leading zero. */
  function NatString(n: nat): (r: string)
    ensures r != [] && AllDigits(r)
    ensures |r| > 1 ==> r[0] != '0'
    decreases n
  {
    if n < 10 then [DigitChar(n)] else NatString(n / 10) + [DigitChar(n % 10)]
  }

  /** The number a string of decimal digits denotes. */
  function ParseNat(s: string): nat
    requires AllDigits(s)
  {
    if s == [] then 0 else ParseNat(s[..|s| - 1]) * 10 + (s[|s| - 1] as int - '0' as int)
  }

  lemma {:induction false} NatStringRoundTrip(n: nat)
    ensures ParseNat(NatString(n)) == n
    decreases n
  {
    if n >= 10 {
      NatStringRoundTrip(n / 10);
      var s := NatString(n);
      assert s[..|s| - 1] == NatString(n / 10);
    }
  }

  /** `Int32.ToString()`: an optional minus sign, then the digits. */
  function IntString(i: int): (r: string)
    ensures r != [] && ',' !in r
    ensures i >= 0 <==> AllDigits(r)
  {
    if i < 0 then
      var r := "-" + NatString(-i);
      assert !IsDigit(r[0]);
      assert forall k :: 1 <= k < |r| ==> r[k] == NatString(-i)[k - 1];
      r
    else NatString(i)
  }

  /** Reads back what `IntString` writes. */
  function ParseInt(s: string): (r: Option<int>)
    ensures r.Some? ==> s != [] && IsDigit(s[|s| - 1])
  {
    if |s| >= 2 && s[0] == '-' && AllDigits(s[1..]) then
      var n: int := ParseNat(s[1..]);
      Some(-n)
    else if s != [] && AllDigits(s) then Some(ParseNat(s))
    else None
  }

  lemma IntStringRoundTrip(i: int)
    ensures ParseInt(IntString(i)) == Some(i)
  {
    if i < 0 {
      NegativeRoundTrip(i);
    } else {
      var s := NatString(i);
      NatStringRoundTrip(i);
      assert IsDigit(s[0]);
    }
  }

  lemma NegativeRoundTrip(i: int)
    requires i < 0
    ensures ParseInt(IntString(i)) == Some(i)
  {
    var d := NatString(-i);
    var s := "-" + d;
    assert s == IntString(i);
    assert s[1..] == d;
    NatStringRoundTrip(-i);
  }

  // `Student.ToString` and its reading back.

  const NameLabel := "Name: "
  const AgeLabel := ", Age: "
  const MajorLabel := ", Major: "

  /** `Student.ToString`: the three fields, each after its label, in the
      order name, age, major. */
  function ToString(s: Student): (r: string)
    ensures var n := |NameLabel| + |s.name|;
      var a := n + |AgeLabel| + |IntString(s.age)|;
      && |r| == a + |MajorLabel| + |s.major|
      && StartsWith(r, NameLabel) && r[|NameLabel|..n] == s.name
      && r[n..n + |AgeLabel|] == AgeLabel && r[n + |AgeLabel|..a] == IntString(s.age)
      && r[a..a + |MajorLabel|] == MajorLabel && r[a + |MajorLabel|..] == s.major
  {
    NameLabel + (s.name + AgeLabel + AgeText(s))
  }

  /** What a rendered line holds after `, Age: `. */
  function AgeText(s: Student): string {
    IntString(s.age) + MajorLabel + s.major
  }

  /** Reads a line written by `ToString` back into a student: the name runs
      up to the first comma, the age up to the next one, and the major to
      the end of the line. */
  function ParseLine(line: string): (r: Option<Student>)
    ensures r.Some? ==> StartsWith(line, NameLabel) && ',' !in r.value.name
  {
    if StartsWith(line, NameLabel) then ParseFields(line[|NameLabel|..]) else None
  }

  /** The part of a line after `Name: `. */
  function ParseFields(rest: string): (r: Option<Student>)
    ensures r.Some? ==> ',' !in r.value.name && StartsWith(rest, r.value.name)
  {
    var c := IndexOf(rest, ',');
    if c < 0 || !StartsWith(rest[c..], AgeLabel) then None
    else
      match ParseAgeMajor(rest[c + |AgeLabel|..])
      case None => None
      case Some(am) => Some(Student(rest[..c], am.0, am.1))
  }

  /** The part of a line after `, Age: `. */
  function ParseAgeMajor(tail: string): (r: Option<(Int32, string)>)
    ensures r.Some? ==> |r.value.1| <= |tail| && r.value.1 == tail[|tail| - |r.value.1|..]
  {
    var d := IndexOf(tail, ',');
    if d < 0 || !StartsWith(tail[d..], MajorLabel) then None
    else
      match ParseInt(tail[..d])
      case None => None
      case Some(age) =>
        if -0x8000_0000 <= age < 0x8000_0000 then Some((age, tail[d + |MajorLabel|..]))
        else None
  }

  /** Cutting `a + sep + b` at the separator. */
  lemma Cut(a: string, sep: string, b: string)
    ensures var s := a + sep + b;
      && s[..|a|] == a
      && StartsWith(s[|a|..], sep)
      && s[|a| + |sep|..] == b
  {
    var s := a + sep + b;
    assert s[|a|..] == sep + b;
  }

  /** The first comma of `prefix + rest`, when `prefix` has none and `rest`
      starts with one. */
  lemma FirstCommaAt(prefix: string, rest: string)
    requires ',' !in prefix && rest != [] && rest[0] == ','
    ensures IndexOf(prefix + rest, ',') == |prefix|
  {
    var s := prefix + rest;
    assert s[..|prefix|] == prefix;
  }

  lemma AgeMajorRoundTrip(s: Student)
    ensures ParseAgeMajor(AgeText(s)) == Some((s.age, s.major))
  {
    var a := IntString(s.age);
    FirstCommaAt(a, MajorLabel + s.major);
    assert a + MajorLabel + s.major == a + (MajorLabel + s.major);
    Cut(a, MajorLabel, s.major);
    IntStringRoundTrip(s.age);
  }

  lemma FieldsRoundTrip(s: Student)
    requires ',' !in s.name
    ensures ParseFields(s.name + AgeLabel + AgeText(s)) == Some(s)
  {
    AgeMajorRoundTrip(s);
    FieldsAt(s.name, AgeText(s), s.age, s.major);
  }

  /** `ParseFields` on a comma-free name, the age label and a tail that
      reads as an age and a major. */
  lemma FieldsAt(name: string, tail: string, age: Int32, major: string)
    requires ',' !in name
    requires ParseAgeMajor(tail) == Some((age, major))
    ensures ParseFields(name + AgeLabel + tail) == Some(Student(name, age, major))
  {
    var rest := name + AgeLabel + tail;
    var c := |name|;
    assert IndexOf(rest, ',') == c by {
      FirstCommaAt(name, AgeLabel + tail);
      assert rest == name + (AgeLabel + tail);
    }
    Cut(name, AgeLabel, tail);
  }

  /** A rendered line reads back as the student it came from, provided the
      name has no comma in it (otherwise the line is ambiguous). */
  lemma ToStringRoundTrip(s: Student)
    requires ',' !in s.name
    ensures ParseLine(ToString(s)) == Some(s)
  {
    FieldsRoundTrip(s);
  }

  // Name comparison.

  /** The ordinal upper-case mapping on ASCII letters. */
  function Upper(c: char): (u: char)
    ensures 'a' <= c <= 'z' ==> u as int == c as int - 32
    ensures !('a' <= c <= 'z') ==> u == c
  {
    if 'a' <= c <= 'z' then (c as int - 32) as char else c
  }

  function UpperAll(s: string): (r: string)
    ensures |r| == |s|
    ensures forall k :: 0 <= k < |s| ==> r[k] == Upper(s[k])
  {
    seq(|s|, k requires 0 <= k < |s| => Upper(s[k]))
  }

  /** `String.Equals(.., StringComparison.OrdinalIgnoreCase)`: the same
      length, and at every position the same character once upper-cased. */
  predicate EqualsIgnoreCase(a: string, b: string) {
    |a| == |b| && forall k :: 0 <= k < |a| ==> Upper(a[k]) == Upper(b[k])
  }

  /** The comparison is equality of the upper-cased names. */
  lemma EqualsIgnoreCaseIsUpperEquality(a: string, b: string)
    ensures EqualsIgnoreCase(a, b) <==> UpperAll(a) == UpperAll(b)
  {
    if UpperAll(a) == UpperAll(b) {
      assert forall k :: 0 <= k < |a| ==> UpperAll(a)[k] == UpperAll(b)[k];
    }
  }

  predicate Matches(s: Student, name: string) {
    EqualsIgnoreCase(s.name, name)
  }

  /** `List.Find` with the name predicate: the index of the first match. */
  function FirstMatch(students: seq<Student>, name: string): (r: Option<nat>)
    ensures r.None? <==> forall k :: 0 <= k < |students| ==> !Matches(students[k], name)
    ensures r.Some? ==>
      && r.value < |students|
      && Matches(students[r.value], name)
      && forall k :: 0 <= k < r.value ==> !Matches(students[k], name)
  {
    if students == [] then None
    else if Matches(students[0], name) then Some(0)
    else
      match FirstMatch(students[1..], name)
      case None => None
      case Some(k) => Some(k + 1)
  }

  /** The scan `List.Find` performs, front to back. */
  method Find(students: seq<Student>, name: string) returns (r: Option<nat>)
    ensures r == FirstMatch(students, name)
  {
    var i := 0;
    while i < |students|
      invariant 0 <= i <= |students|
      invariant forall k :: 0 <= k < i ==> !Matches(students[k], name)
    {
      if Matches(students[i], name) {
        return Some(i);
      }
      i := i + 1;
    }
    return None;
  }

  // The manager's operations.

  const ListHeader := "List of students:"
  const EmptyNotice := "No students found."

  function AddedLine(name: string): string {
    "Student " + name + " added."
  }

  function RemovedLine(name: string): string {
    "Student " + name + " removed."
  }

  function NotFoundLine(name: string): string {
    "Student " + name + " not found."
  }

  /** The register after an operation, and the line it writes. */
  datatype Update = Update(students: seq<Student>, line: string)

  /** `StudentManager.AddStudent`: the student goes at the end. */
  function AddStudent(students: seq<Student>, s: Student): (r: Update)
    ensures |r.students| == |students| + 1
    ensures r.students[..|students|] == students && r.students[|students|] == s
    ensures r.line == AddedLine(s.name)
  {
    Update(students + [s], AddedLine(s.name))
  }

  datatype Removal = Removal(found: bool, students: seq<Student>, line: string)

  /** `StudentManager.RemoveStudent`: the first student whose name matches
      ignoring case is removed and `true` returned; when none matches the
      register is left as it was and `false` returned. */
  function RemoveStudent(students: seq<Student>, name: string): (r: Removal)
    ensures r.found <==> exists k :: 0 <= k < |students| && Matches(students[k], name)
    ensures !r.found ==> r.students == students && r.line == NotFoundLine(name)
    ensures r.found ==> r.line == RemovedLine(name)
    ensures r.found ==> exists i ::
      && 0 <= i < |students|
      && Matches(students[i], name)
      && (forall k :: 0 <= k < i ==> !Matches(students[k], name))
      && r.students == students[..i] + students[i + 1..]
  {
    match FirstMatch(students, name)
    case None => Removal(false, students, NotFoundLine(name))
    case Some(i) => Removal(true, students[..i] + students[i + 1..], RemovedLine(name))
  }

  /** A removal takes exactly one student out: the others stay, in order. */
  lemma RemoveTakesOne(students: seq<Student>, name: string)
    requires RemoveStudent(students, name).found
    ensures var r := RemoveStudent(students, name).students;
      && |r| == |students| - 1
      && multiset(r) + multiset{students[FirstMatch(students, name).value]} == multiset(students)
  {
    DropOne(students, FirstMatch(students, name).value);
  }

  /** Dropping the element at `i` takes exactly that element out. */
  lemma DropOne<T>(s: seq<T>, i: nat)
    requires i < |s|
    ensures var r := s[..i] + s[i + 1..];
      && |r| == |s| - 1
      && multiset(r) + multiset{s[i]} == multiset(s)
  {
    assert s == s[..i] + [s[i]] + s[i + 1..];
  }

  /** Adding a student whose name nobody has yet and removing that name
      again gives back the register before the addition. */
  lemma AddThenRemove(students: seq<Student>, s: Student)
    requires forall k :: 0 <= k < |students| ==> !Matches(students[k], s.name)
    ensures RemoveStudent(AddStudent(students, s).students, s.name).students == students
  {
    var added := AddStudent(students, s).students;
    assert Matches(s, s.name);
    assert FirstMatch(added, s.name) == Some(|students|);
    assert added[..|students|] == students;
  }

  /** One `ToString` line per student, in order. */
  function Lines(students: seq<Student>): (r: seq<string>)
    ensures |r| == |students|
    ensures forall k :: 0 <= k < |students| ==> r[k] == ToString(students[k])
  {
    if students == [] then [] else [ToString(students[0])] + Lines(students[1..])
  }

  /** `StudentManager.DisplayStudents`: a notice for an empty register,
      otherwise a header and one line per student in register order. */
  function DisplayStudents(students: seq<Student>): (r: seq<string>)
    ensures students == [] ==> r == [EmptyNotice]
    ensures students != [] ==>
      && |r| == |students| + 1
      && r[0] == ListHeader
      && forall k :: 0 <= k < |students| ==> r[k + 1] == ToString(students[k])
  {
    if students == [] then [EmptyNotice] else [ListHeader] + Lines(students)
  }

  /** The listing reads back as the register, when no name holds a comma. */
  lemma DisplayRoundTrip(students: seq<Student>, k: int)
    requires students != [] && 0 <= k < |students|
    requires forall j :: 0 <= j < |students| ==> ',' !in students[j].name
    ensures ParseLine(DisplayStudents(students)[k + 1]) == Some(students[k])
  {
    ToStringRoundTrip(students[k]);
  }
}
