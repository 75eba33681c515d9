/** Reading the posted forms of the add, edit and stage-update pages into
    typed requests. A text field is `request.form.get(key, '').strip()`; a
    checkbox counts as ticked only when the browser sent the value "on", so
    a missing key reads as unticked. */
module Forms {
  import opened Base
  import opened Text
  import opened Records

  /** The posted form fields (first value per key). */
  type Form = map<string, string>

  /** `request.form.get(key, '').strip()`. */
  function Field(form: Form, key: string): (r: string)
    ensures key !in form ==> r == ""
    ensures key in form ==> r == Strip(form[key])
    ensures Trimmed(r)
    ensures r == "" <==> Blank(form, key)
  {
    Strip(if key in form then form[key] else "")
  }

  /** `request.form.get(key) == 'on'`. */
  predicate Checked(form: Form, key: string) {
    key in form && form[key] == "on"
  }

  /** The field is missing, empty, or whitespace only. */
  predicate Blank(form: Form, key: string) {
    key !in form || AllSpace(form[key])
  }

  /** A stage update as posted to /tracker/update. `stage` is "" when no
      stage was chosen. */
  datatype StageRequest = StageRequest(stage: string, checklist: Checklist, ticks: Ticks)

  /** A new job as posted to /add. */
  datatype AddRequest = AddRequest(info: JobInfo, stage: string, checklist: Checklist)

  /** The form key of the checkbox that ticks event `e`. */
  function TickKey(e: OutsourceEvent): string {
    match e
    case PlateSent => "plate_sent"
    case PlateReceived => "plate_received"
    case DieSent => "die_sent"
    case DieReceived => "die_received"
    case PaperSent => "paper_sent"
    case PaperDone => "paper_done"
  }

  /** The general job fields of the add and edit forms. Every field comes
      out trimmed, and is empty exactly when the posted value is blank. */
  function ParseJobInfo(form: Form): (r: JobInfo)
    ensures Trimmed(r.jobNo) && Trimmed(r.name) && Trimmed(r.date) && Trimmed(r.paper)
    ensures Trimmed(r.note) && Trimmed(r.price) && Trimmed(r.serial)
    ensures r.jobNo == "" <==> Blank(form, "job_no")
    ensures r.name == "" <==> Blank(form, "name")
    ensures r.jobNo == Field(form, "job_no") && r.name == Field(form, "name")
    ensures r.date == Field(form, "date") && r.paper == Field(form, "paper")
    ensures r.note == Field(form, "note") && r.price == Field(form, "price")
    ensures r.serial == Field(form, "serial")
  {
    JobInfo(Field(form, "job_no"), Field(form, "name"), Field(form, "date"), Field(form, "paper"),
            Field(form, "note"), Field(form, "price"), Field(form, "serial"))
  }

  /** The three pre-press checkboxes: each flag is set exactly when its box
      was posted as "on". */
  function ParseChecklist(form: Form): (r: Checklist)
    ensures r.plate <==> Checked(form, "pre_plate")
    ensures r.die <==> Checked(form, "pre_die")
    ensures r.paper <==> Checked(form, "pre_paper")
  {
    Checklist(Checked(form, "pre_plate"), Checked(form, "pre_die"), Checked(form, "pre_paper"))
  }

  /** The six outsourcing checkboxes: an event is ticked exactly when its box
      was posted as "on"; a box missing from the form is not ticked. */
  function ParseTicks(form: Form): (r: Ticks)
    ensures forall e :: r.Ticked(e) <==> Checked(form, TickKey(e))
    ensures forall e :: TickKey(e) !in form ==> !r.Ticked(e)
  {
    Ticks(Checked(form, "plate_sent"), Checked(form, "plate_received"), Checked(form, "die_sent"),
          Checked(form, "die_received"), Checked(form, "paper_sent"), Checked(form, "paper_done"))
  }

  /** The stage-update form. */
  function ParseStageRequest(form: Form): (r: StageRequest)
    ensures r.stage == Field(form, "stage")
    ensures Trimmed(r.stage)
    ensures r.stage == "" <==> Blank(form, "stage")
    ensures r.checklist == ParseChecklist(form) && r.ticks == ParseTicks(form)
  {
    StageRequest(Field(form, "stage"), ParseChecklist(form), ParseTicks(form))
  }

  /** The add-job form. */
  function ParseAddRequest(form: Form): (r: AddRequest)
    ensures r.stage == Field(form, "stage")
    ensures Trimmed(r.stage)
    ensures r.stage == "" <==> Blank(form, "stage")
    ensures r.info == ParseJobInfo(form) && r.checklist == ParseChecklist(form)
  {
    AddRequest(ParseJobInfo(form), Field(form, "stage"), ParseChecklist(form))
  }
}
