/** The gymnastics domain of index.php as functions of the table contents:
    the rows of the four tables, the checks each operation runs before it
    writes, the progress percentage, the attendance rate, the program filter
    and the ordered reads. The store that changes these tables is GymStore. */
module Gym {

  import opened Php
  import opened Checks
  import opened Ordering

  /** `SKILL_LEVELS`. */
  const SkillLevels: seq<string> := ["Beginner", "Intermediate", "Advanced"]

  datatype Program = Program(
    name: string, description: string, coachName: string, contact: string,
    duration: int, skillLevel: string)

  datatype Enrolment = Enrolment(programId: int, gymnastName: string, age: int, experienceLevel: string)

  /** `attended` is the 1 or 0 that index.php writes. */
  datatype Attendance = Attendance(enrolmentId: int, sessionDate: string, attended: int)

  datatype ProgressRecord = ProgressRecord(enrolmentId: int, sessionDate: string, notes: string, score: int)

  const ProgramNameRequired := "Program name is required"
  const DescriptionRequired := "Description is required"
  const CoachNameRequired := "Coach name is required"
  const ContactRequired := "Contact information is required"
  const DurationInvalid := "Duration must be a positive number"
  const SkillLevelInvalid := "Invalid skill level"
  const ProgramNotFound := "Program not found"
  const GymnastNameRequired := "Gymnast name is required"
  const AgeInvalid := "Age must be a number between 5 and 100"
  const ExperienceLevelInvalid := "Invalid experience level"
  const LevelMismatch := "Gymnast experience level does not match program requirements"
  const EnrolmentNotFound := "Enrolment not found"
  const SessionDateRequired := "Session date is required"
  const NotesRequired := "Progress notes are required"
  const ScoreInvalid := "Score must be a number between 0 and 100"

  const ProgramAdded := "Program added successfully"
  const ProgramUpdated := "Program updated successfully"
  const ProgramDeleted := "Program deleted successfully"
  const EnrolmentDeleted := "Enrolment deleted successfully"
  const AttendanceRecorded := "Attendance recorded successfully"
  const ProgressRecorded := "Progress recorded successfully"

  /** The success message of enrolGymnast, which embeds the coach notification. */
  function EnrolmentMessage(gymnastName: string, programName: string): string
  {
    "Enrolment successful. New enrolment: " + gymnastName + " has enrolled in " + programName
  }

  // ---------------------------------------------------------------- checks

  /** The messages of addProgram and editProgram, in the order they are checked. */
  const ProgramMessages: seq<string> :=
    [ProgramNameRequired, DescriptionRequired, CoachNameRequired, ContactRequired, DurationInvalid, SkillLevelInvalid]

  function ProgramChecks(name: string, description: string, coachName: string, contact: string,
                         duration: string, skillLevel: string): seq<Check>
  {
    [ Check(Empty(name), ProgramNameRequired),
      Check(Empty(description), DescriptionRequired),
      Check(Empty(coachName), CoachNameRequired),
      Check(Empty(contact), ContactRequired),
      Check(!NumericPositive(duration), DurationInvalid),
      Check(skillLevel !in SkillLevels, SkillLevelInvalid) ]
  }

  /** The field errors of addProgram and editProgram: one message per failed
      check, in the order the checks run. */
  function ProgramErrors(name: string, description: string, coachName: string, contact: string,
                         duration: string, skillLevel: string): seq<string>
  {
    Failures(ProgramChecks(name, description, coachName, contact, duration, skillLevel))
  }

  lemma ProgramMessagesDistinct()
    ensures Distinct(ProgramMessages)
  {
  }

  /** Each program message is reported exactly when its field is invalid. */
  lemma ProgramErrorsReported(name: string, description: string, coachName: string, contact: string,
                              duration: string, skillLevel: string)
    ensures var errs := ProgramErrors(name, description, coachName, contact, duration, skillLevel);
      (ProgramNameRequired in errs <==> Empty(name))
      && (DescriptionRequired in errs <==> Empty(description))
      && (CoachNameRequired in errs <==> Empty(coachName))
      && (ContactRequired in errs <==> Empty(contact))
      && (DurationInvalid in errs <==> !NumericPositive(duration))
      && (SkillLevelInvalid in errs <==> skillLevel !in SkillLevels)
  {
    var cs := ProgramChecks(name, description, coachName, contact, duration, skillLevel);
    assert Messages(cs) == ProgramMessages;
    ProgramMessagesDistinct();
    FailedMessage(cs, 0); FailedMessage(cs, 1); FailedMessage(cs, 2);
    FailedMessage(cs, 3); FailedMessage(cs, 4); FailedMessage(cs, 5);
  }

  /** The messages keep the order name, description, coach, contact,
      duration, skill level, and the program is written only when all six
      checks pass. */
  lemma ProgramErrorsOrder(name: string, description: string, coachName: string, contact: string,
                           duration: string, skillLevel: string)
    ensures var errs := ProgramErrors(name, description, coachName, contact, duration, skillLevel);
      IsSubsequence(errs, ProgramMessages)
      && (errs == [] <==>
            !Empty(name) && !Empty(description) && !Empty(coachName) && !Empty(contact)
            && NumericPositive(duration) && skillLevel in SkillLevels)
  {
    var cs := ProgramChecks(name, description, coachName, contact, duration, skillLevel);
    assert Messages(cs) == ProgramMessages;
    FailuresSpec(cs);
    ProgramErrorsReported(name, description, coachName, contact, duration, skillLevel);
    var errs := Failures(cs);
    if errs != [] {
      SubsequenceMembers(errs, ProgramMessages);
      assert errs[0] in ProgramMessages;
    }
  }

  /** The row addProgram and editProgram write once the checks pass. */
  function ProgramRow(name: string, description: string, coachName: string, contact: string,
                      duration: string, skillLevel: string): (p: Program)
    requires NumericPositive(duration)
  {
    Program(name, description, coachName, contact, ParseNumeric(duration).value, skillLevel)
  }

  /** What every stored program satisfies, since only checked rows are written. */
  predicate WellFormedProgram(p: Program)
  {
    !Empty(p.name) && !Empty(p.description) && !Empty(p.coachName) && !Empty(p.contact)
    && p.duration > 0 && p.skillLevel in SkillLevels
  }

  /** The messages of enrolGymnast, in the order they can appear. */
  const EnrolmentMessages: seq<string> :=
    [GymnastNameRequired, AgeInvalid, ExperienceLevelInvalid, ProgramNotFound, LevelMismatch]

  function EnrolmentChecks(name: string, age: string, experienceLevel: string, programFound: bool): seq<Check>
  {
    [ Check(Empty(name), GymnastNameRequired),
      Check(!NumericWithin(age, 5, 100), AgeInvalid),
      Check(experienceLevel !in SkillLevels, ExperienceLevelInvalid),
      Check(!programFound, ProgramNotFound) ]
  }

  /** The errors of enrolGymnast: the four field checks accumulate; the
      skill-level match is checked only when all four pass. */
  function EnrolmentErrors(programs: map<int, Program>, programId: int,
                           name: string, age: string, experienceLevel: string): seq<string>
  {
    var first := Failures(EnrolmentChecks(name, age, experienceLevel, programId in programs));
    if first != [] then first
    else if programId in programs && programs[programId].skillLevel != experienceLevel then [LevelMismatch]
    else []
  }

  /** Each of the four field messages is reported exactly when its check
      fails; the mismatch is reported exactly when those four pass and the
      levels differ, and then alone; the enrolment is written only when the
      list is empty. */
  lemma EnrolmentErrorsSpec(programs: map<int, Program>, programId: int,
                            name: string, age: string, experienceLevel: string)
    ensures GymnastNameRequired in EnrolmentErrors(programs, programId, name, age, experienceLevel) <==> Empty(name)
    ensures AgeInvalid in EnrolmentErrors(programs, programId, name, age, experienceLevel) <==> !NumericWithin(age, 5, 100)
    ensures ExperienceLevelInvalid in EnrolmentErrors(programs, programId, name, age, experienceLevel) <==>
      experienceLevel !in SkillLevels
    ensures ProgramNotFound in EnrolmentErrors(programs, programId, name, age, experienceLevel) <==> programId !in programs
    ensures LevelMismatch in EnrolmentErrors(programs, programId, name, age, experienceLevel) <==>
      !Empty(name) && NumericWithin(age, 5, 100) && experienceLevel in SkillLevels
      && programId in programs && programs[programId].skillLevel != experienceLevel
    ensures LevelMismatch in EnrolmentErrors(programs, programId, name, age, experienceLevel) ==>
      EnrolmentErrors(programs, programId, name, age, experienceLevel) == [LevelMismatch]
    ensures EnrolmentErrors(programs, programId, name, age, experienceLevel) == [] <==>
      !Empty(name) && NumericWithin(age, 5, 100) && experienceLevel in SkillLevels
      && programId in programs && programs[programId].skillLevel == experienceLevel
  {
    var cs := EnrolmentChecks(name, age, experienceLevel, programId in programs);
    assert Messages(cs) == EnrolmentMessages[..4];
    FailuresSpec(cs);
    FailedMessage(cs, 0); FailedMessage(cs, 1); FailedMessage(cs, 2); FailedMessage(cs, 3);
    var first := Failures(cs);
    SubsequenceMembers(first, Messages(cs));
    assert LevelMismatch !in Messages(cs);
  }

  /** The enrolment messages appear in the fixed order name, age, level,
      program, mismatch. */
  lemma EnrolmentErrorsOrder(programs: map<int, Program>, programId: int,
                             name: string, age: string, experienceLevel: string)
    ensures IsSubsequence(EnrolmentErrors(programs, programId, name, age, experienceLevel), EnrolmentMessages)
  {
    var cs := EnrolmentChecks(name, age, experienceLevel, programId in programs);
    assert EnrolmentMessages == Messages(cs) + [LevelMismatch];
    FailuresSpec(cs);
    var first := Failures(cs);
    if first != [] {
      SubsequenceAppend(first, Messages(cs), [LevelMismatch]);
    } else if programId in programs && programs[programId].skillLevel != experienceLevel {
      assert IsSubsequence([LevelMismatch], [LevelMismatch]);
      SubsequencePrepend([LevelMismatch], Messages(cs), [LevelMismatch]);
    }
  }

  /** The coach notification is part of the success message. */
  lemma EnrolmentMessageNotifies(gymnastName: string, programName: string)
    ensures Contains(EnrolmentMessage(gymnastName, programName),
                     "New enrolment: " + gymnastName + " has enrolled in " + programName)
  {
    var prefix := "Enrolment successful. ";
    var m := EnrolmentMessage(gymnastName, programName);
    assert m == prefix + ("New enrolment: " + gymnastName + " has enrolled in " + programName);
    assert m[|prefix|..] == "New enrolment: " + gymnastName + " has enrolled in " + programName;
  }

  /** The row enrolGymnast writes once the checks pass. */
  function EnrolmentRow(programId: int, name: string, age: string, experienceLevel: string): (e: Enrolment)
    requires NumericWithin(age, 5, 100)
  {
    Enrolment(programId, name, ParseNumeric(age).value, experienceLevel)
  }

  predicate WellFormedEnrolment(e: Enrolment)
  {
    !Empty(e.gymnastName) && 5 <= e.age <= 100 && e.experienceLevel in SkillLevels
  }

  const AttendanceMessages: seq<string> := [SessionDateRequired, EnrolmentNotFound]

  function AttendanceChecks(sessionDate: string, enrolmentFound: bool): seq<Check>
  {
    [Check(Empty(sessionDate), SessionDateRequired), Check(!enrolmentFound, EnrolmentNotFound)]
  }

  /** The errors of markAttendance: the session date, then the enrolment. */
  function AttendanceErrors(enrolments: map<int, Enrolment>, enrolmentId: int, sessionDate: string): seq<string>
  {
    Failures(AttendanceChecks(sessionDate, enrolmentId in enrolments))
  }

  /** Each attendance message is reported exactly when its check fails, in
      check order; the row is written only when both pass. */
  lemma AttendanceErrorsSpec(enrolments: map<int, Enrolment>, enrolmentId: int, sessionDate: string)
    ensures SessionDateRequired in AttendanceErrors(enrolments, enrolmentId, sessionDate) <==> Empty(sessionDate)
    ensures EnrolmentNotFound in AttendanceErrors(enrolments, enrolmentId, sessionDate) <==> enrolmentId !in enrolments
    ensures IsSubsequence(AttendanceErrors(enrolments, enrolmentId, sessionDate), AttendanceMessages)
    ensures AttendanceErrors(enrolments, enrolmentId, sessionDate) == [] <==>
      !Empty(sessionDate) && enrolmentId in enrolments
  {
    var cs := AttendanceChecks(sessionDate, enrolmentId in enrolments);
    assert Messages(cs) == AttendanceMessages;
    FailuresSpec(cs);
    FailedMessage(cs, 0); FailedMessage(cs, 1);
  }

  /** `$attended ? 1 : 0` for the submitted checkbox value ("" when absent). */
  function AttendedFlag(attended: string): int
  {
    if Empty(attended) then 0 else 1
  }

  const ProgressMessages: seq<string> := [SessionDateRequired, NotesRequired, ScoreInvalid, EnrolmentNotFound]

  function ProgressChecks(sessionDate: string, notes: string, score: string, enrolmentFound: bool): seq<Check>
  {
    [ Check(Empty(sessionDate), SessionDateRequired),
      Check(Empty(notes), NotesRequired),
      Check(!NumericWithin(score, 0, 100), ScoreInvalid),
      Check(!enrolmentFound, EnrolmentNotFound) ]
  }

  /** The errors of recordProgress: date, notes, score, then the enrolment. */
  function ProgressErrors(enrolments: map<int, Enrolment>, enrolmentId: int,
                          sessionDate: string, notes: string, score: string): seq<string>
  {
    Failures(ProgressChecks(sessionDate, notes, score, enrolmentId in enrolments))
  }

  /** Each progress message is reported exactly when its check fails, in
      check order; the record is written only when all four pass. */
  lemma ProgressErrorsSpec(enrolments: map<int, Enrolment>, enrolmentId: int,
                           sessionDate: string, notes: string, score: string)
    ensures SessionDateRequired in ProgressErrors(enrolments, enrolmentId, sessionDate, notes, score) <==> Empty(sessionDate)
    ensures NotesRequired in ProgressErrors(enrolments, enrolmentId, sessionDate, notes, score) <==> Empty(notes)
    ensures ScoreInvalid in ProgressErrors(enrolments, enrolmentId, sessionDate, notes, score) <==>
      !NumericWithin(score, 0, 100)
    ensures EnrolmentNotFound in ProgressErrors(enrolments, enrolmentId, sessionDate, notes, score) <==>
      enrolmentId !in enrolments
    ensures IsSubsequence(ProgressErrors(enrolments, enrolmentId, sessionDate, notes, score), ProgressMessages)
    ensures ProgressErrors(enrolments, enrolmentId, sessionDate, notes, score) == [] <==>
      !Empty(sessionDate) && !Empty(notes) && NumericWithin(score, 0, 100) && enrolmentId in enrolments
  {
    var cs := ProgressChecks(sessionDate, notes, score, enrolmentId in enrolments);
    assert Messages(cs) == ProgressMessages;
    FailuresSpec(cs);
    FailedMessage(cs, 0); FailedMessage(cs, 1); FailedMessage(cs, 2); FailedMessage(cs, 3);
  }

  /** What every stored progress record satisfies. */
  predicate WellFormedProgress(r: ProgressRecord)
  {
    !Empty(r.sessionDate) && !Empty(r.notes) && 0 <= r.score <= 100
  }

  // ---------------------------------------------------------------- tables

  /** The four tables, each a map from AUTO_INCREMENT id to row. */
  datatype Tables = Tables(
    programs: map<int, Program>,
    enrolments: map<int, Enrolment>,
    attendance: map<int, Attendance>,
    progress: map<int, ProgressRecord>)

  /** Every row passed its operation's checks, and every foreign key points
      at a live row: an enrolment at a program, an attendance or progress
      row at an enrolment. */
  predicate Consistent(t: Tables)
  {
    (forall p :: p in t.programs ==> WellFormedProgram(t.programs[p]))
    && (forall e :: e in t.enrolments ==>
          WellFormedEnrolment(t.enrolments[e]) && t.enrolments[e].programId in t.programs)
    && (forall a :: a in t.attendance ==>
          t.attendance[a].enrolmentId in t.enrolments && !Empty(t.attendance[a].sessionDate)
          && (t.attendance[a].attended == 0 || t.attendance[a].attended == 1))
    && (forall r :: r in t.progress ==>
          t.progress[r].enrolmentId in t.enrolments && WellFormedProgress(t.progress[r]))
  }

  /** deleteEnrolment with the foreign keys' ON DELETE CASCADE spelled out:
      the enrolment goes, and so do its attendance and progress rows. */
  function RemoveEnrolment(t: Tables, enrolmentId: int): (r: Tables)
  {
    Tables(
      t.programs,
      t.enrolments - {enrolmentId},
      map a | a in t.attendance && t.attendance[a].enrolmentId != enrolmentId :: t.attendance[a],
      map p | p in t.progress && t.progress[p].enrolmentId != enrolmentId :: t.progress[p])
  }

  /** deleteProgram with the cascade spelled out: the program goes, with its
      enrolments and, through them, their attendance and progress rows. */
  function RemoveProgram(t: Tables, programId: int): (r: Tables)
  {
    var enrolments := map e | e in t.enrolments && t.enrolments[e].programId != programId :: t.enrolments[e];
    Tables(
      t.programs - {programId},
      enrolments,
      map a | a in t.attendance && t.attendance[a].enrolmentId in enrolments :: t.attendance[a],
      map p | p in t.progress && t.progress[p].enrolmentId in enrolments :: t.progress[p])
  }

  /** Deleting an enrolment keeps the tables consistent and removes exactly
      the rows that refer to it; every other row is left as it was. */
  lemma RemoveEnrolmentCascades(t: Tables, enrolmentId: int)
    requires Consistent(t)
    ensures Consistent(RemoveEnrolment(t, enrolmentId))
    ensures RemoveEnrolment(t, enrolmentId).programs == t.programs
    ensures forall e :: e in RemoveEnrolment(t, enrolmentId).enrolments <==> e in t.enrolments && e != enrolmentId
    ensures forall a :: a in RemoveEnrolment(t, enrolmentId).attendance <==>
      a in t.attendance && t.attendance[a].enrolmentId != enrolmentId
    ensures forall p :: p in RemoveEnrolment(t, enrolmentId).progress <==>
      p in t.progress && t.progress[p].enrolmentId != enrolmentId
    ensures forall a :: a in RemoveEnrolment(t, enrolmentId).attendance ==>
      RemoveEnrolment(t, enrolmentId).attendance[a] == t.attendance[a]
    ensures forall p :: p in RemoveEnrolment(t, enrolmentId).progress ==>
      RemoveEnrolment(t, enrolmentId).progress[p] == t.progress[p]
  {
  }

  /** Deleting a program keeps the tables consistent; it removes the program,
      exactly the enrolments in it, and exactly the attendance and progress
      rows of those enrolments; every other row is left as it was. */
  lemma RemoveProgramCascades(t: Tables, programId: int)
    requires Consistent(t)
    ensures Consistent(RemoveProgram(t, programId))
    ensures forall p :: p in RemoveProgram(t, programId).programs <==> p in t.programs && p != programId
    ensures forall e :: e in RemoveProgram(t, programId).enrolments <==>
      e in t.enrolments && t.enrolments[e].programId != programId
    ensures forall a :: a in RemoveProgram(t, programId).attendance <==>
      a in t.attendance && t.enrolments[t.attendance[a].enrolmentId].programId != programId
    ensures forall p :: p in RemoveProgram(t, programId).progress <==>
      p in t.progress && t.enrolments[t.progress[p].enrolmentId].programId != programId
    ensures forall e :: e in RemoveProgram(t, programId).enrolments ==>
      RemoveProgram(t, programId).enrolments[e] == t.enrolments[e]
    ensures forall a :: a in RemoveProgram(t, programId).attendance ==>
      RemoveProgram(t, programId).attendance[a] == t.attendance[a]
    ensures forall p :: p in RemoveProgram(t, programId).progress ==>
      RemoveProgram(t, programId).progress[p] == t.progress[p]
  {
  }

  // ------------------------------------------------------ derived metrics

  /** round(100 * part / whole), halves rounded up, on exact integers: the
      integer nearest to 100 * part / whole. */
  function RoundedPercent(part: nat, whole: int): (p: nat)
    requires whole > 0
    ensures whole * (2 * p - 1) <= 200 * part < whole * (2 * p + 1)
  {
    var x, y := 200 * part + whole, 2 * whole;
    var q := x / y;
    assert y * q <= x < y * q + y;
    assert whole * (2 * q - 1) == y * q - whole;
    assert whole * (2 * q + 1) == y * q + whole;
    q
  }

  /** `min(100, round(attended / duration * 100))` when the duration is
      positive, 0 otherwise. */
  function ProgressPercent(attended: nat, duration: int): int
  {
    if duration > 0 then
      var p := RoundedPercent(attended, duration);
      Min(100, p)
    else 0
  }

  function Min(a: int, b: int): int
  {
    if a < b then a else b
  }

  /** Cancelling a positive factor from both sides of an inequality. */
  lemma MulCancel(a: int, x: int, y: int)
    requires a > 0 && a * x <= a * y
    ensures x <= y
  {
    assert a * (y - x) >= 0;
  }

  lemma MulCancelStrict(a: int, x: int, y: int)
    requires a > 0 && a * x < a * y
    ensures x < y
  {
    assert a * (y - x) > 0;
  }

  /** A larger share never rounds to a smaller percentage. */
  lemma RoundedPercentMonotonic(a: nat, b: nat, whole: int)
    requires whole > 0 && a <= b
    ensures RoundedPercent(a, whole) <= RoundedPercent(b, whole)
  {
    var p: int, q: int := RoundedPercent(a, whole), RoundedPercent(b, whole);
    MulCancelStrict(whole, 2 * p - 1, 2 * q + 1);
  }

  /** A share of the whole rounds to at most 100, the whole itself to exactly
      100, and nothing to 0. */
  lemma RoundedPercentOfWhole(part: nat, whole: int)
    requires 0 < whole
    ensures part <= whole ==> RoundedPercent(part, whole) <= 100
    ensures part >= whole ==> RoundedPercent(part, whole) >= 100
    ensures part == 0 ==> RoundedPercent(part, whole) == 0
  {
    var p: int := RoundedPercent(part, whole);
    if part <= whole {
      assert 200 * part <= whole * 200;
      MulCancel(whole, 2 * p - 1, 200);
    }
    if part >= whole {
      assert whole * 200 <= 200 * part;
      MulCancelStrict(whole, 200, 2 * p + 1);
    }
    if part == 0 {
      MulCancel(whole, 2 * p - 1, 0);
    }
  }

  /** The percentage never decreases as more sessions are attended. */
  lemma ProgressPercentMonotonic(a: nat, b: nat, duration: int)
    requires a <= b
    ensures ProgressPercent(a, duration) <= ProgressPercent(b, duration)
  {
    if duration > 0 {
      RoundedPercentMonotonic(a, b, duration);
    }
  }

  /** The percentage always lies in [0, 100], is 0 with no attended session
      and reaches 100 once the attended sessions cover the duration. */
  lemma ProgressPercentBounds(attended: nat, duration: int)
    ensures 0 <= ProgressPercent(attended, duration) <= 100
    ensures duration > 0 && attended >= duration ==> ProgressPercent(attended, duration) == 100
    ensures attended == 0 ==> ProgressPercent(attended, duration) == 0
  {
    if duration > 0 {
      RoundedPercentOfWhole(attended, duration);
    }
  }

  /** `COUNT(*) ... WHERE enrolmentId = ? AND attended = 1`. */
  function AttendedCount(attendance: map<int, Attendance>, enrolmentId: int): nat
  {
    |set a | a in attendance && attendance[a].enrolmentId == enrolmentId && attendance[a].attended == 1|
  }

  /** calculateProgress: 0 when the enrolment (joined to its program) is not
      found, otherwise the capped percentage of attended sessions over the
      program's duration. */
  function CalculateProgress(programs: map<int, Program>, enrolments: map<int, Enrolment>,
                             attendance: map<int, Attendance>, enrolmentId: int): (pct: int)
    ensures 0 <= pct <= 100
    ensures enrolmentId !in enrolments ==> pct == 0
    ensures AttendedCount(attendance, enrolmentId) == 0 ==> pct == 0
    ensures enrolmentId in enrolments && enrolments[enrolmentId].programId in programs
      && programs[enrolments[enrolmentId].programId].duration > 0
      && AttendedCount(attendance, enrolmentId) >= programs[enrolments[enrolmentId].programId].duration
      ==> pct == 100
    ensures enrolmentId in enrolments && enrolments[enrolmentId].programId in programs
      && programs[enrolments[enrolmentId].programId].duration <= 0
      ==> pct == 0
    ensures enrolmentId in enrolments && enrolments[enrolmentId].programId in programs
      && programs[enrolments[enrolmentId].programId].duration > 0
      ==> pct == Min(100, RoundedPercent(AttendedCount(attendance, enrolmentId),
                                         programs[enrolments[enrolmentId].programId].duration))
  {
    if enrolmentId in enrolments && enrolments[enrolmentId].programId in programs then
      var n := AttendedCount(attendance, enrolmentId);
      var d := programs[enrolments[enrolmentId].programId].duration;
      ProgressPercentBounds(n, d);
      ProgressPercent(n, d)
    else 0
  }

  /** Recording one more attendance row never lowers any enrolment's progress. */
  lemma AttendanceNeverLowersProgress(programs: map<int, Program>, enrolments: map<int, Enrolment>,
                                      attendance: map<int, Attendance>, id: int, row: Attendance, enrolmentId: int)
    requires id !in attendance
    ensures CalculateProgress(programs, enrolments, attendance, enrolmentId)
         <= CalculateProgress(programs, enrolments, attendance[id := row], enrolmentId)
  {
    var after := attendance[id := row];
    var before := set a | a in attendance && attendance[a].enrolmentId == enrolmentId && attendance[a].attended == 1;
    var later := set a | a in after && after[a].enrolmentId == enrolmentId && after[a].attended == 1;
    assert before <= later;
    CardinalityMonotonic(before, later);
    if enrolmentId in enrolments && enrolments[enrolmentId].programId in programs {
      ProgressPercentMonotonic(AttendedCount(attendance, enrolmentId), AttendedCount(after, enrolmentId),
                               programs[enrolments[enrolmentId].programId].duration);
    }
  }

  lemma CardinalityMonotonic<T>(a: set<T>, b: set<T>)
    requires a <= b
    ensures |a| <= |b|
  {
    assert b == a + (b - a);
  }

  /** `SUM(attended)`: with every stored `attended` 0 or 1, the number of rows marked attended. */
  function AttendedSessions(attendance: map<int, Attendance>): nat
  {
    |set a | a in attendance && attendance[a].attended == 1|
  }

  /** The dashboard's attendance rate: round(attended / total * 100) over all
      attendance rows, 0 when there are none. */
  function AttendanceRate(attendance: map<int, Attendance>): (rate: int)
    requires forall a :: a in attendance ==> attendance[a].attended == 0 || attendance[a].attended == 1
    ensures |attendance| > 0 ==> rate == RoundedPercent(AttendedSessions(attendance), |attendance|)
    ensures 0 <= rate <= 100
    ensures AttendedSessions(attendance) == 0 ==> rate == 0
    ensures attendance != map[] && AttendedSessions(attendance) == |attendance| ==> rate == 100
  {
    var total := |attendance.Keys|;
    var attended := AttendedSessions(attendance);
    CardinalityMonotonic((set a | a in attendance && attendance[a].attended == 1), attendance.Keys);
    if total > 0 then
      RoundedPercentOfWhole(attended, total);
      RoundedPercent(attended, total)
    else 0
  }

  // ------------------------------------------------------------- filtering

  /** The search half of filterPrograms: name, description or coach name contains the term. */
  predicate MatchesSearch(p: Program, searchTerm: string)
  {
    Empty(searchTerm)
    || Contains(p.name, searchTerm) || Contains(p.description, searchTerm) || Contains(p.coachName, searchTerm)
  }

  /** The skill-level half of filterPrograms: an exact match. */
  predicate MatchesLevel(p: Program, skillLevel: string)
  {
    Empty(skillLevel) || p.skillLevel == skillLevel
  }

  /** A program is listed when it passes both halves (they combine with AND). */
  predicate MatchesFilter(p: Program, searchTerm: string, skillLevel: string)
  {
    MatchesSearch(p, searchTerm) && MatchesLevel(p, skillLevel)
  }

  /** One WHERE fragment of filterPrograms with the parameters it binds. */
  datatype Condition = SearchCondition(term: string) | LevelCondition(level: string)

  predicate Holds(c: Condition, p: Program)
  {
    match c
    case SearchCondition(t) => Contains(p.name, t) || Contains(p.description, t) || Contains(p.coachName, t)
    case LevelCondition(l) => p.skillLevel == l
  }

  /** `COUNT(e.id)` of the LEFT JOIN: the enrolments of one program. */
  function EnrolmentCount(enrolments: map<int, Enrolment>, programId: int): nat
  {
    |set e | e in enrolments && enrolments[e].programId == programId|
  }

  /** One result row of filterPrograms: `p.*` and `enrolmentCount`. */
  datatype ProgramListing = ProgramListing(program: Program, enrolmentCount: nat)

  /** The fragments are joined with AND; no fragment means no WHERE clause. */
  predicate AllHold(conditions: seq<Condition>, p: Program)
  {
    forall c :: c in conditions ==> Holds(c, p)
  }

  /** The filterPrograms query for the WHERE fragments it built: each program
      that satisfies them all, with its enrolment count, one row per program
      (GROUP BY p.id) in id order. */
  function ProgramQuery(programs: map<int, Program>, enrolments: map<int, Enrolment>,
                        conditions: seq<Condition>): (rows: seq<(int, ProgramListing)>)
    ensures forall row :: row in rows <==>
      row.0 in programs && AllHold(conditions, programs[row.0])
      && row.1 == ProgramListing(programs[row.0], EnrolmentCount(enrolments, row.0))
    ensures IdsAscending(rows)
  {
    Select(SortedIds(programs.Keys),
      id => if id in programs && AllHold(conditions, programs[id])
            then Some(ProgramListing(programs[id], EnrolmentCount(enrolments, id)))
            else None)
  }

  // ---------------------------------------------------------- ordered reads

  function AttendanceDate(a: Attendance): string
  {
    a.sessionDate
  }

  /** getAttendanceRecords: the attendance rows of one enrolment, latest session first. */
  function AttendanceRecords(attendance: map<int, Attendance>, enrolmentId: int): (rows: seq<(int, Attendance)>)
    ensures SortedByDateDesc(rows, AttendanceDate)
    ensures forall row :: row in rows <==>
      row.0 in attendance && attendance[row.0] == row.1 && row.1.enrolmentId == enrolmentId
    ensures UniqueIds(rows)
  {
    var selected := Select(SortedIds(attendance.Keys),
      id => if id in attendance && attendance[id].enrolmentId == enrolmentId then Some(attendance[id]) else None);
    var rows := SortByDateDesc(selected, AttendanceDate);
    SortKeepsUniqueIds(selected, AttendanceDate);
    assert forall row :: row in rows <==> row in selected by {
      forall row ensures row in rows <==> row in selected {
        assert row in rows <==> row in multiset(rows);
      }
    }
    rows
  }

  /** One row of getAllEnrolments: the enrolment with its program's name. */
  datatype EnrolmentView = EnrolmentView(enrolment: Enrolment, programName: string)

  /** getAllEnrolments: each enrolment joined to its program, in id order. */
  function AllEnrolments(programs: map<int, Program>, enrolments: map<int, Enrolment>): (rows: seq<(int, EnrolmentView)>)
    ensures forall row :: row in rows <==>
      row.0 in enrolments && row.1.enrolment == enrolments[row.0]
      && row.1.enrolment.programId in programs && row.1.programName == programs[row.1.enrolment.programId].name
    ensures IdsAscending(rows)
  {
    Select(SortedIds(enrolments.Keys),
      id => if id in enrolments && enrolments[id].programId in programs
            then Some(EnrolmentView(enrolments[id], programs[enrolments[id].programId].name))
            else None)
  }

  /** One row of getAllProgress: the record with its gymnast's and program's names. */
  datatype ProgressView = ProgressView(record: ProgressRecord, gymnastName: string, programName: string)

  function ProgressDate(v: ProgressView): string
  {
    v.record.sessionDate
  }

  /** The join of getAllProgress for one progress id: the record, its
      enrolment's gymnast and that enrolment's program. */
  function ProgressJoin(programs: map<int, Program>, enrolments: map<int, Enrolment>,
                        progress: map<int, ProgressRecord>, id: int): Option<ProgressView>
  {
    if id in progress && progress[id].enrolmentId in enrolments
       && enrolments[progress[id].enrolmentId].programId in programs
    then
      var e := enrolments[progress[id].enrolmentId];
      Some(ProgressView(progress[id], e.gymnastName, programs[e.programId].name))
    else None
  }

  /** getAllProgress: every progress record joined to its enrolment and
      program, latest session first. */
  function AllProgress(programs: map<int, Program>, enrolments: map<int, Enrolment>,
                       progress: map<int, ProgressRecord>): (rows: seq<(int, ProgressView)>)
    ensures SortedByDateDesc(rows, ProgressDate)
    ensures forall row :: row in rows <==> row.0 in progress && ProgressJoin(programs, enrolments, progress, row.0) == Some(row.1)
    ensures UniqueIds(rows)
  {
    var selected := Select(SortedIds(progress.Keys), id => ProgressJoin(programs, enrolments, progress, id));
    var rows := SortByDateDesc(selected, ProgressDate);
    SortKeepsUniqueIds(selected, ProgressDate);
    assert forall row :: row in rows <==> row in selected by {
      forall row ensures row in rows <==> row in selected {
        assert row in rows <==> row in multiset(rows);
      }
    }
    rows
  }

  /** A listed progress row carries its record, the gymnast of its enrolment and the program of that enrolment. */
  lemma AllProgressJoin(programs: map<int, Program>, enrolments: map<int, Enrolment>,
                        progress: map<int, ProgressRecord>, row: (int, ProgressView))
    ensures row in AllProgress(programs, enrolments, progress) <==>
      row.0 in progress && row.1.record == progress[row.0]
      && row.1.record.enrolmentId in enrolments
      && row.1.gymnastName == enrolments[row.1.record.enrolmentId].gymnastName
      && enrolments[row.1.record.enrolmentId].programId in programs
      && row.1.programName == programs[enrolments[row.1.record.enrolmentId].programId].name
  {
  }
}
