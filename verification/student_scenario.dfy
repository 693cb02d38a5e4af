/**
  The sequence of calls `Program.Main` makes on a fresh `StudentManager`,
  with the lines it writes.
 */
module StudentScenario {
  import opened Outcomes
  import opened Students

  const Alice := Student("Alice", 20, "Computer Science")
  const Bob := Student("Bob", 22, "Mathematics")
  const Charlie := Student("Charlie", 21, "Physics")
  const Eve := Student("Eve", 23, "Biology")

  /** The ages render as their decimal digits. */
  lemma AgeTexts()
    ensures IntString(20) == "20" && IntString(21) == "21"
    ensures IntString(22) == "22" && IntString(23) == "23"
  {
  }

  /** "Bob" matches only the second student, who is taken out. */
  lemma RemoveBob()
    ensures RemoveStudent([Alice, Bob, Charlie], "Bob") == Removal(true, [Alice, Charlie], RemovedLine("Bob"))
  {
    assert !Matches(Alice, "Bob");
    assert Matches(Bob, "Bob");
    assert FirstMatch([Alice, Bob, Charlie], "Bob") == Some(1);
    assert [Alice, Bob, Charlie][..1] + [Alice, Bob, Charlie][2..] == [Alice, Charlie];
  }

  /** "David" has the length of "Alice" but differs at the first letter, so
      nobody matches and nothing changes. */
  lemma RemoveDavid()
    ensures RemoveStudent([Alice, Charlie], "David") == Removal(false, [Alice, Charlie], NotFoundLine("David"))
  {
    assert Upper(Alice.name[0]) != Upper("David"[0]);
    assert !Matches(Alice, "David");
    assert !Matches(Charlie, "David");
    assert FirstMatch([Alice, Charlie], "David") == None;
  }

  lemma ThreeAdded(a: Student, b: Student, c: Student)
    ensures AddStudent(AddStudent(AddStudent([], a).students, b).students, c).students == [a, b, c]
  {
  }

  lemma OneMoreAdded(a: Student, b: Student, c: Student)
    ensures AddStudent([a, b], c).students == [a, b, c]
  {
  }

  lemma Listing(a: Student, b: Student, c: Student)
    ensures DisplayStudents([a, b, c]) == [ListHeader, ToString(a), ToString(b), ToString(c)]
  {
  }

  lemma ShortListing(a: Student, b: Student)
    ensures DisplayStudents([a, b]) == [ListHeader, ToString(a), ToString(b)]
  {
  }

  /** `Program.Main`: three additions, a listing, the removal of Bob, a
      listing, the removal of an unknown David, an addition and a last
      listing. Removing David returns `false`; nothing fails. */
  method Scenario() returns (students: seq<Student>, bobRemoved: bool, davidRemoved: bool, lines: seq<string>)
    ensures students == [Alice, Charlie, Eve]
    ensures bobRemoved && !davidRemoved
    ensures lines ==
      [AddedLine("Alice"), AddedLine("Bob"), AddedLine("Charlie")]
      + [ListHeader, ToString(Alice), ToString(Bob), ToString(Charlie)]
      + [RemovedLine("Bob")]
      + [ListHeader, ToString(Alice), ToString(Charlie)]
      + [NotFoundLine("David"), AddedLine("Eve")]
      + [ListHeader, ToString(Alice), ToString(Charlie), ToString(Eve)]
  {
    var u1 := AddStudent([], Alice);
    var u2 := AddStudent(u1.students, Bob);
    var u3 := AddStudent(u2.students, Charlie);
    assert u3.students == [Alice, Bob, Charlie] by {
      ThreeAdded(Alice, Bob, Charlie);
    }
    var shown1 := DisplayStudents(u3.students);
    assert shown1 == [ListHeader, ToString(Alice), ToString(Bob), ToString(Charlie)] by {
      Listing(Alice, Bob, Charlie);
    }

    var r1 := RemoveStudent(u3.students, "Bob");
    assert r1 == Removal(true, [Alice, Charlie], RemovedLine("Bob")) by {
      RemoveBob();
    }
    var shown2 := DisplayStudents(r1.students);
    assert shown2 == [ListHeader, ToString(Alice), ToString(Charlie)] by {
      ShortListing(Alice, Charlie);
    }

    var r2 := RemoveStudent(r1.students, "David");
    assert r2 == Removal(false, [Alice, Charlie], NotFoundLine("David")) by {
      RemoveDavid();
    }

    var u4 := AddStudent(r2.students, Eve);
    assert u4.students == [Alice, Charlie, Eve] by {
      OneMoreAdded(Alice, Charlie, Eve);
    }
    var shown3 := DisplayStudents(u4.students);
    assert shown3 == [ListHeader, ToString(Alice), ToString(Charlie), ToString(Eve)] by {
      Listing(Alice, Charlie, Eve);
    }

    students, bobRemoved, davidRemoved := u4.students, r1.found, r2.found;
    lines := [u1.line, u2.line, u3.line] + shown1 + [r1.line] + shown2 + [r2.line, u4.line] + shown3;
  }
}
