/**
 * The per-visitor session state of app.py (`st.session_state`): its
 * initialisation (lines 20-31 and 37-38), the unlock once the access code
 * is accepted (lines 44-45), a successful grade (lines 130-133) and the
 * resubmit button (lines 160-163). The page is Idle (`graded` false, upload
 * shown) or Graded (`graded` true, report shown).
 */
module Sessions {
  import opened Tables
  import opened Windows
  import opened Grading

  class GradingSession {
    var graded: bool
    var authOk: bool
    var report: Option<Report>
    var colCompare: Option<seq<Point>>
    const dfTruth: Table<int>  // loaded once, never reassigned
    var dfStudent: Option<Table<Cell>>

    /** Graded exactly when a report and a window are stored; a graded
        session also holds the submission it graded. */
    ghost predicate Valid()
      reads this
    {
      && TruthOk(dfTruth)
      && (graded <==> report.Some?)
      && (graded <==> colCompare.Some?)
      && (graded ==> dfStudent.Some?)
    }

    /** A fresh session, with the truth table loaded. */
    constructor (truth: Table<int>)
      requires TruthOk(truth)
      ensures Valid()
      ensures !graded && !authOk
      ensures report == None && colCompare == None && dfStudent == None
      ensures dfTruth == truth
    {
      dfTruth := truth;
      graded := false;
      authOk := false;
      report := None;
      colCompare := None;
      dfStudent := None;
    }

    /** The access code was accepted; the comparison itself is not modelled. */
    method Unlock()
      requires Valid()
      modifies this
      ensures Valid() && authOk
      ensures graded == old(graded) && report == old(report) && colCompare == old(colCompare)
      ensures dfStudent == old(dfStudent)
    {
      authOk := true;
    }

    /** "Submit and grade" on the upload page. A successful grade stores the
        report, the window and the re-indexed submission and moves to Graded;
        a failed one changes nothing. The access flag is never touched. */
    method Submit(sub: Table<Cell>) returns (outcome: Result<Graded>)
      requires Valid() && authOk && !graded && Rectangular(sub)
      modifies this`graded, this`report, this`colCompare, this`dfStudent
      ensures Valid()
      ensures outcome == Grade(dfTruth, sub)
      ensures outcome.Ok? ==> && graded
                              && report == Some(outcome.value.report)
                              && colCompare == Some(outcome.value.window)
                              && dfStudent == Some(outcome.value.aligned)
      ensures outcome.Err? ==> && graded == old(graded) && report == old(report)
                               && colCompare == old(colCompare) && dfStudent == old(dfStudent)
      ensures authOk == old(authOk)
    {
      outcome := Grade(dfTruth, sub);
      if outcome.Ok? {
        Store(outcome.value);
      }
    }

    /** Moves to Graded with the given grade on display. */
    method Store(g: Graded)
      requires TruthOk(dfTruth)
      modifies this`graded, this`report, this`colCompare, this`dfStudent
      ensures Valid()
      ensures graded && report == Some(g.report) && colCompare == Some(g.window) && dfStudent == Some(g.aligned)
    {
      report, colCompare, dfStudent, graded := Some(g.report), Some(g.window), Some(g.aligned), true;
    }

    /** "Resubmit" on the report page: back to Idle with report and window
        cleared. The last submission stays stored, as in the source. */
    method Resubmit()
      requires Valid() && graded
      modifies this
      ensures Valid() && !graded
      ensures report == None && colCompare == None
      ensures authOk == old(authOk) && dfStudent == old(dfStudent)
    {
      graded := false;
      report := None;
      colCompare := None;
    }
  }

  /** A visit: a fresh session is unlocked, the upload is submitted and, on
      success, the report page's Resubmit is pressed. The session ends Idle
      and unlocked either way; it holds the re-indexed submission exactly
      when the upload graded. */
  method Visit(truth: Table<int>, sub: Table<Cell>) returns (s: GradingSession)
    requires TruthOk(truth) && Rectangular(sub)
    ensures fresh(s) && s.Valid()
    ensures !s.graded && s.report == None && s.colCompare == None && s.authOk && s.dfTruth == truth
    ensures Grade(truth, sub).Ok? ==> s.dfStudent == Some(Grade(truth, sub).value.aligned)
    ensures Grade(truth, sub).Err? ==> s.dfStudent == None
  {
    s := new GradingSession(truth);
    s.Unlock();
    var outcome := s.Submit(sub);
    if outcome.Ok? {
      s.Resubmit();
    }
  }
}
