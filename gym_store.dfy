/** The application's database as one object: the programs, enrolments,
    attendance and progress tables with their AUTO_INCREMENT counters, and
    the operations of index.php that check their input, then insert, update
    or delete rows in place. */
module GymStore {

  import opened Php
  import opened Checks
  import opened Ordering
  import opened Gym

  class Store {
    var programs: map<int, Program>
    var enrolments: map<int, Enrolment>
    var attendance: map<int, Attendance>
    var progress: map<int, ProgressRecord>
    var nextProgramId: int
    var nextEnrolmentId: int
    var nextAttendanceId: int
    var nextProgressId: int

    /** The four tables as a value. */
    function State(): Tables
      reads this
    {
      Tables(programs, enrolments, attendance, progress)
    }

    /** The tables are consistent, and every id lies below its table's
      counter, so the next id handed out is fresh. */
    ghost predicate Valid()
      reads this
    {
      Consistent(State())
      && 1 <= nextProgramId && 1 <= nextEnrolmentId && 1 <= nextAttendanceId && 1 <= nextProgressId
      && (forall p :: p in programs ==> 1 <= p < nextProgramId)
      && (forall e :: e in enrolments ==> 1 <= e < nextEnrolmentId)
      && (forall a :: a in attendance ==> 1 <= a < nextAttendanceId)
      && (forall r :: r in progress ==> 1 <= r < nextProgressId)
    }

    /** Empty tables; every counter starts at 1. */
    constructor ()
      ensures Valid()
      ensures programs == map[] && enrolments == map[] && attendance == map[] && progress == map[]
      ensures nextProgramId == 1 && nextEnrolmentId == 1 && nextAttendanceId == 1 && nextProgressId == 1
    {
      programs, enrolments, attendance, progress := map[], map[], map[], map[];
      nextProgramId, nextEnrolmentId, nextAttendanceId, nextProgressId := 1, 1, 1, 1;
    }

    /** addProgram: the six field checks in order; with no error, one new
        program under the next id. */
    method AddProgram(name: string, description: string, coachName: string, contact: string,
                      duration: string, skillLevel: string) returns (outcome: Outcome)
      requires Valid()
      modifies this
      ensures Valid()
      ensures outcome.Failed? <==> ProgramErrors(name, description, coachName, contact, duration, skillLevel) != []
      ensures outcome.Failed? ==>
        outcome.errors == ProgramErrors(name, description, coachName, contact, duration, skillLevel)
        && unchanged(this)
      ensures outcome.Succeeded? ==>
        outcome == Succeeded(ProgramAdded, Some(old(nextProgramId)))
        && NumericPositive(duration)
        && old(nextProgramId) !in old(programs)
        && programs == old(programs)[old(nextProgramId) := ProgramRow(name, description, coachName, contact, duration, skillLevel)]
        && nextProgramId == old(nextProgramId) + 1
        && enrolments == old(enrolments) && attendance == old(attendance) && progress == old(progress)
        && nextEnrolmentId == old(nextEnrolmentId) && nextAttendanceId == old(nextAttendanceId)
        && nextProgressId == old(nextProgressId)
    {
      var errors := CheckProgram(name, description, coachName, contact, duration, skillLevel);
      if errors != [] {
        return Failed(errors);
      }
      var id := nextProgramId;
      InsertProgram(ProgramRow(name, description, coachName, contact, duration, skillLevel));
      outcome := Succeeded(ProgramAdded, Some(id));
    }

    /** The field checks shared by addProgram and editProgram, appending one
        message per failed check. */
    static method CheckProgram(name: string, description: string, coachName: string, contact: string,
                               duration: string, skillLevel: string) returns (errors: seq<string>)
      ensures errors == ProgramErrors(name, description, coachName, contact, duration, skillLevel)
      ensures errors == [] <==>
        !Empty(name) && !Empty(description) && !Empty(coachName) && !Empty(contact)
        && NumericPositive(duration) && skillLevel in SkillLevels
    {
      ghost var cs := ProgramChecks(name, description, coachName, contact, duration, skillLevel);
      ghost var done: seq<Check>;
      errors, done := Report([], [], Check(Empty(name), ProgramNameRequired));
      errors, done := Report(errors, done, Check(Empty(description), DescriptionRequired));
      errors, done := Report(errors, done, Check(Empty(coachName), CoachNameRequired));
      errors, done := Report(errors, done, Check(Empty(contact), ContactRequired));
      errors, done := Report(errors, done, Check(!NumericPositive(duration), DurationInvalid));
      errors, done := Report(errors, done, Check(skillLevel !in SkillLevels, SkillLevelInvalid));
      assert done == cs;
      FailuresSpec(cs);
    }

    /** `INSERT INTO programs`: a checked row under the next id. */
    method InsertProgram(row: Program)
      requires Valid() && WellFormedProgram(row)
      modifies this
      ensures Valid()
      ensures old(nextProgramId) !in old(programs)
      ensures programs == old(programs)[old(nextProgramId) := row] && nextProgramId == old(nextProgramId) + 1
      ensures enrolments == old(enrolments) && attendance == old(attendance) && progress == old(progress)
      ensures nextEnrolmentId == old(nextEnrolmentId) && nextAttendanceId == old(nextAttendanceId)
      ensures nextProgressId == old(nextProgressId)
    {
      programs, nextProgramId := programs[nextProgramId := row], nextProgramId + 1;
    }

    /** editProgram: an unknown id is reported alone, before any field check;
        otherwise the six field checks, and with no error all six fields of
        that one row are replaced. */
    method EditProgram(programId: int, name: string, description: string, coachName: string, contact: string,
                       duration: string, skillLevel: string) returns (outcome: Outcome)
      requires Valid()
      modifies this
      ensures Valid()
      ensures programId !in old(programs) ==> outcome == Failed([ProgramNotFound]) && unchanged(this)
      ensures programId in old(programs) ==>
        (outcome.Failed? <==> ProgramErrors(name, description, coachName, contact, duration, skillLevel) != [])
      ensures programId in old(programs) && outcome.Failed? ==>
        outcome.errors == ProgramErrors(name, description, coachName, contact, duration, skillLevel)
        && unchanged(this)
      ensures outcome.Succeeded? ==>
        outcome == Succeeded(ProgramUpdated, None)
        && NumericPositive(duration)
        && programId in old(programs)
        && programs == old(programs)[programId := ProgramRow(name, description, coachName, contact, duration, skillLevel)]
        && enrolments == old(enrolments) && attendance == old(attendance) && progress == old(progress)
        && nextProgramId == old(nextProgramId) && nextEnrolmentId == old(nextEnrolmentId)
        && nextAttendanceId == old(nextAttendanceId) && nextProgressId == old(nextProgressId)
    {
      if programId !in programs {
        return Failed([ProgramNotFound]);
      }
      var errors := CheckProgram(name, description, coachName, contact, duration, skillLevel);
      if errors != [] {
        return Failed(errors);
      }
      programs := programs[programId := ProgramRow(name, description, coachName, contact, duration, skillLevel)];
      outcome := Succeeded(ProgramUpdated, None);
    }

    /** deleteProgram: an unknown id changes nothing; a live one goes with
        everything that depends on it, after which it is unknown. */
    method DeleteProgram(programId: int) returns (outcome: Outcome)
      requires Valid()
      modifies this
      ensures Valid()
      ensures programId !in old(programs) ==> outcome == Failed([ProgramNotFound]) && unchanged(this)
      ensures programId in old(programs) ==>
        outcome == Succeeded(ProgramDeleted, None)
        && State() == RemoveProgram(old(State()), programId)
        && nextProgramId == old(nextProgramId) && nextEnrolmentId == old(nextEnrolmentId)
        && nextAttendanceId == old(nextAttendanceId) && nextProgressId == old(nextProgressId)
      ensures programId !in programs
    {
      if programId !in programs {
        return Failed([ProgramNotFound]);
      }
      RemoveProgramCascades(State(), programId);
      var t := RemoveProgram(State(), programId);
      programs, enrolments, attendance, progress := t.programs, t.enrolments, t.attendance, t.progress;
      outcome := Succeeded(ProgramDeleted, None);
    }

    /** enrolGymnast: the four checks accumulate; only when they all pass is
        the skill level compared, and a mismatch is then the only error.
        With no error, one new enrolment under the next id. */
    method EnrolGymnast(programId: int, name: string, age: string, experienceLevel: string)
      returns (outcome: Outcome)
      requires Valid()
      modifies this
      ensures Valid()
      ensures outcome.Failed? <==> EnrolmentErrors(old(programs), programId, name, age, experienceLevel) != []
      ensures outcome.Failed? ==>
        outcome.errors == EnrolmentErrors(old(programs), programId, name, age, experienceLevel)
        && unchanged(this)
      ensures outcome.Succeeded? ==>
        programId in old(programs) && NumericWithin(age, 5, 100)
        && outcome == Succeeded(EnrolmentMessage(name, old(programs)[programId].name), Some(old(nextEnrolmentId)))
        && old(nextEnrolmentId) !in old(enrolments)
        && enrolments == old(enrolments)[old(nextEnrolmentId) := EnrolmentRow(programId, name, age, experienceLevel)]
        && enrolments[old(nextEnrolmentId)].experienceLevel == old(programs)[programId].skillLevel
        && nextEnrolmentId == old(nextEnrolmentId) + 1
        && programs == old(programs) && attendance == old(attendance) && progress == old(progress)
        && nextProgramId == old(nextProgramId) && nextAttendanceId == old(nextAttendanceId)
        && nextProgressId == old(nextProgressId)
    {
      var errors := CheckEnrolment(name, age, experienceLevel, programId in programs);
      if errors != [] {
        return Failed(errors);
      }
      if programs[programId].skillLevel != experienceLevel {
        errors := errors + [LevelMismatch];
        return Failed(errors);
      }
      var id := nextEnrolmentId;
      InsertEnrolment(EnrolmentRow(programId, name, age, experienceLevel));
      outcome := Succeeded(EnrolmentMessage(name, programs[programId].name), Some(id));
    }

    /** The four field checks of enrolGymnast that accumulate, appending one
        message per failed check. */
    static method CheckEnrolment(name: string, age: string, experienceLevel: string, programFound: bool)
      returns (errors: seq<string>)
      ensures errors == Failures(EnrolmentChecks(name, age, experienceLevel, programFound))
      ensures errors == [] <==>
        !Empty(name) && NumericWithin(age, 5, 100) && experienceLevel in SkillLevels && programFound
    {
      ghost var cs := EnrolmentChecks(name, age, experienceLevel, programFound);
      ghost var done: seq<Check>;
      errors, done := Report([], [], Check(Empty(name), GymnastNameRequired));
      errors, done := Report(errors, done, Check(!NumericWithin(age, 5, 100), AgeInvalid));
      errors, done := Report(errors, done, Check(experienceLevel !in SkillLevels, ExperienceLevelInvalid));
      errors, done := Report(errors, done, Check(!programFound, ProgramNotFound));
      assert done == cs;
      FailuresSpec(cs);
    }

    /** `INSERT INTO enrolments`: a checked row for a live program under the next id. */
    method InsertEnrolment(row: Enrolment)
      requires Valid() && WellFormedEnrolment(row) && row.programId in programs
      modifies this
      ensures Valid()
      ensures old(nextEnrolmentId) !in old(enrolments)
      ensures enrolments == old(enrolments)[old(nextEnrolmentId) := row] && nextEnrolmentId == old(nextEnrolmentId) + 1
      ensures programs == old(programs) && attendance == old(attendance) && progress == old(progress)
      ensures nextProgramId == old(nextProgramId) && nextAttendanceId == old(nextAttendanceId)
      ensures nextProgressId == old(nextProgressId)
    {
      enrolments, nextEnrolmentId := enrolments[nextEnrolmentId := row], nextEnrolmentId + 1;
    }

    /** deleteEnrolment: an unknown id changes nothing; a live one goes with
        its attendance and progress rows, after which it is unknown. */
    method DeleteEnrolment(enrolmentId: int) returns (outcome: Outcome)
      requires Valid()
      modifies this
      ensures Valid()
      ensures enrolmentId !in old(enrolments) ==> outcome == Failed([EnrolmentNotFound]) && unchanged(this)
      ensures enrolmentId in old(enrolments) ==>
        outcome == Succeeded(EnrolmentDeleted, None)
        && State() == RemoveEnrolment(old(State()), enrolmentId)
        && nextProgramId == old(nextProgramId) && nextEnrolmentId == old(nextEnrolmentId)
        && nextAttendanceId == old(nextAttendanceId) && nextProgressId == old(nextProgressId)
      ensures enrolmentId !in enrolments
    {
      if enrolmentId !in enrolments {
        return Failed([EnrolmentNotFound]);
      }
      RemoveEnrolmentCascades(State(), enrolmentId);
      var t := RemoveEnrolment(State(), enrolmentId);
      programs, enrolments, attendance, progress := t.programs, t.enrolments, t.attendance, t.progress;
      outcome := Succeeded(EnrolmentDeleted, None);
    }

    /** markAttendance: the session date, then the enrolment; with no error,
        one new attendance row storing `attended` as 1 or 0. */
    method MarkAttendance(enrolmentId: int, sessionDate: string, attended: string) returns (outcome: Outcome)
      requires Valid()
      modifies this
      ensures Valid()
      ensures outcome.Failed? <==> AttendanceErrors(old(enrolments), enrolmentId, sessionDate) != []
      ensures outcome.Failed? ==>
        outcome.errors == AttendanceErrors(old(enrolments), enrolmentId, sessionDate) && unchanged(this)
      ensures outcome.Succeeded? ==>
        outcome == Succeeded(AttendanceRecorded, None)
        && old(nextAttendanceId) !in old(attendance)
        && attendance == old(attendance)[old(nextAttendanceId) := Attendance(enrolmentId, sessionDate, AttendedFlag(attended))]
        && nextAttendanceId == old(nextAttendanceId) + 1
        && programs == old(programs) && enrolments == old(enrolments) && progress == old(progress)
        && nextProgramId == old(nextProgramId) && nextEnrolmentId == old(nextEnrolmentId)
        && nextProgressId == old(nextProgressId)
    {
      var errors := CheckAttendance(sessionDate, enrolmentId in enrolments);
      if errors != [] {
        return Failed(errors);
      }
      InsertAttendance(Attendance(enrolmentId, sessionDate, if Empty(attended) then 0 else 1));
      outcome := Succeeded(AttendanceRecorded, None);
    }

    /** `INSERT INTO attendance`: a dated 0/1 row for a live enrolment under the next id. */
    method InsertAttendance(row: Attendance)
      requires Valid() && row.enrolmentId in enrolments && !Empty(row.sessionDate)
      requires row.attended == 0 || row.attended == 1
      modifies this
      ensures Valid()
      ensures old(nextAttendanceId) !in old(attendance)
      ensures attendance == old(attendance)[old(nextAttendanceId) := row] && nextAttendanceId == old(nextAttendanceId) + 1
      ensures programs == old(programs) && enrolments == old(enrolments) && progress == old(progress)
      ensures nextProgramId == old(nextProgramId) && nextEnrolmentId == old(nextEnrolmentId)
      ensures nextProgressId == old(nextProgressId)
    {
      attendance, nextAttendanceId := attendance[nextAttendanceId := row], nextAttendanceId + 1;
    }

    /** The checks of markAttendance, appending one message per failed check. */
    static method CheckAttendance(sessionDate: string, enrolmentFound: bool) returns (errors: seq<string>)
      ensures errors == Failures(AttendanceChecks(sessionDate, enrolmentFound))
      ensures errors == [] <==> !Empty(sessionDate) && enrolmentFound
    {
      ghost var cs := AttendanceChecks(sessionDate, enrolmentFound);
      ghost var done: seq<Check>;
      errors, done := Report([], [], Check(Empty(sessionDate), SessionDateRequired));
      errors, done := Report(errors, done, Check(!enrolmentFound, EnrolmentNotFound));
      assert done == cs;
      FailuresSpec(cs);
    }

    /** recordProgress: date, notes, score, then the enrolment; with no
        error, one new progress row. */
    method RecordProgress(enrolmentId: int, sessionDate: string, notes: string, score: string)
      returns (outcome: Outcome)
      requires Valid()
      modifies this
      ensures Valid()
      ensures outcome.Failed? <==> ProgressErrors(old(enrolments), enrolmentId, sessionDate, notes, score) != []
      ensures outcome.Failed? ==>
        outcome.errors == ProgressErrors(old(enrolments), enrolmentId, sessionDate, notes, score) && unchanged(this)
      ensures outcome.Succeeded? ==>
        outcome == Succeeded(ProgressRecorded, None)
        && NumericWithin(score, 0, 100)
        && old(nextProgressId) !in old(progress)
        && progress == old(progress)[old(nextProgressId) :=
             ProgressRecord(enrolmentId, sessionDate, notes, ParseNumeric(score).value)]
        && nextProgressId == old(nextProgressId) + 1
        && programs == old(programs) && enrolments == old(enrolments) && attendance == old(attendance)
        && nextProgramId == old(nextProgramId) && nextEnrolmentId == old(nextEnrolmentId)
        && nextAttendanceId == old(nextAttendanceId)
    {
      var errors := CheckProgress(sessionDate, notes, score, enrolmentId in enrolments);
      if errors != [] {
        return Failed(errors);
      }
      InsertProgress(ProgressRecord(enrolmentId, sessionDate, notes, ParseNumeric(score).value));
      outcome := Succeeded(ProgressRecorded, None);
    }

    /** `INSERT INTO progress`: a checked record for a live enrolment under the next id. */
    method InsertProgress(row: ProgressRecord)
      requires Valid() && row.enrolmentId in enrolments && WellFormedProgress(row)
      modifies this
      ensures Valid()
      ensures old(nextProgressId) !in old(progress)
      ensures progress == old(progress)[old(nextProgressId) := row] && nextProgressId == old(nextProgressId) + 1
      ensures programs == old(programs) && enrolments == old(enrolments) && attendance == old(attendance)
      ensures nextProgramId == old(nextProgramId) && nextEnrolmentId == old(nextEnrolmentId)
      ensures nextAttendanceId == old(nextAttendanceId)
    {
      progress, nextProgressId := progress[nextProgressId := row], nextProgressId + 1;
    }

    /** The checks of recordProgress, appending one message per failed check. */
    static method CheckProgress(sessionDate: string, notes: string, score: string, enrolmentFound: bool)
      returns (errors: seq<string>)
      ensures errors == Failures(ProgressChecks(sessionDate, notes, score, enrolmentFound))
      ensures errors == [] <==>
        !Empty(sessionDate) && !Empty(notes) && NumericWithin(score, 0, 100) && enrolmentFound
    {
      ghost var cs := ProgressChecks(sessionDate, notes, score, enrolmentFound);
      ghost var done: seq<Check>;
      errors, done := Report([], [], Check(Empty(sessionDate), SessionDateRequired));
      errors, done := Report(errors, done, Check(Empty(notes), NotesRequired));
      errors, done := Report(errors, done, Check(!NumericWithin(score, 0, 100), ScoreInvalid));
      errors, done := Report(errors, done, Check(!enrolmentFound, EnrolmentNotFound));
      assert done == cs;
      FailuresSpec(cs);
    }

    /** filterPrograms: a search fragment when the term is non-empty, a level
        fragment when the level is non-empty, joined with AND; each program
        listed once with its enrolment count. */
    method FilterPrograms(searchTerm: string, skillLevel: string) returns (rows: seq<(int, ProgramListing)>)
      ensures forall row :: row in rows <==>
        row.0 in programs && MatchesFilter(programs[row.0], searchTerm, skillLevel)
        && row.1 == ProgramListing(programs[row.0], EnrolmentCount(enrolments, row.0))
      ensures IdsAscending(rows)
      ensures Empty(searchTerm) && Empty(skillLevel) ==>
        forall id :: id in programs ==> (id, ProgramListing(programs[id], EnrolmentCount(enrolments, id))) in rows
    {
      var conditions: seq<Condition> := [];
      if !Empty(searchTerm) {
        conditions := conditions + [SearchCondition(searchTerm)];
      }
      assert forall p :: AllHold(conditions, p) <==> MatchesSearch(p, searchTerm) by {
        forall p ensures AllHold(conditions, p) <==> MatchesSearch(p, searchTerm) {
          if !Empty(searchTerm) { assert conditions[0] in conditions; }
        }
      }
      ghost var searched := conditions;
      if !Empty(skillLevel) {
        conditions := conditions + [LevelCondition(skillLevel)];
      }
      assert forall p :: AllHold(conditions, p) <==> MatchesFilter(p, searchTerm, skillLevel) by {
        forall p ensures AllHold(conditions, p) <==> MatchesFilter(p, searchTerm, skillLevel) {
          assert AllHold(searched, p) <==> MatchesSearch(p, searchTerm);
          if !Empty(skillLevel) {
            assert conditions == searched + [LevelCondition(skillLevel)];
            assert conditions[|searched|] in conditions;
          }
        }
      }
      rows := ProgramQuery(programs, enrolments, conditions);
    }
  }
}
