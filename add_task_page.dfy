/** The add-task page: the form state, the field-by-field change handler, and
    the submit handler with its client-side title check and the payload it
    sends to `POST /tasks`. Rendering is not modelled. */
module AddTaskPage {
  import opened JsText
  import opened TaskEntity
  import opened TaskRoutes

  /** `formData`: every input holds a string. */
  datatype TaskForm = TaskForm(title: string, description: string, status: string, dueDate: string)

  /** The `name` attribute of the four inputs. */
  datatype FormField = TitleInput | DescriptionInput | StatusInput | DueDateInput

  const FormTitleRequired := "Title is required"
  const CreateFailed := "Failed to create task"
  const ListPath := "/"

  /** The form the page starts with. */
  const InitialForm := TaskForm("", "", DefaultStatus.Value(), "")

  /** The value the input named `name` shows. */
  function FieldValue(f: TaskForm, name: FormField): string {
    match name
    case TitleInput => f.title
    case DescriptionInput => f.description
    case StatusInput => f.status
    case DueDateInput => f.dueDate
  }

  /** `{ ...prev, [name]: value }`: the named input takes the new value and
      every other input keeps its own. */
  function WithField(f: TaskForm, name: FormField, value: string): (r: TaskForm)
    ensures FieldValue(r, name) == value
    ensures forall other :: other != name ==> FieldValue(r, other) == FieldValue(f, other)
  {
    match name
    case TitleInput => f.(title := value)
    case DescriptionInput => f.(description := value)
    case StatusInput => f.(status := value)
    case DueDateInput => f.(dueDate := value)
  }

  /** The body sent by `handleSubmit`: the trimmed title, the trimmed
      description or nothing when it is blank, the status as it is, and the
      due date or nothing when it is empty (`undefined` properties are dropped
      from the JSON). */
  function CreatePayload(f: TaskForm): (b: TaskBody)
    ensures b.title == Val(Trim(f.title)) && b.status == Val(f.status)
    ensures b.description == Absent <==> Blank(f.description)
    ensures b.description != Absent ==> b.description == Val(Trim(f.description))
    ensures b.dueDate == Absent <==> f.dueDate == ""
    ensures b.dueDate != Absent ==> b.dueDate == Val(f.dueDate)
  {
    TaskBody(Val(Trim(f.title)),
             if Trim(f.description) != "" then Val(Trim(f.description)) else Absent,
             Val(f.status),
             if f.dueDate != "" then Val(f.dueDate) else Absent)
  }

  /** The client's title check rejects exactly what the server's would. */
  lemma ClientTitleCheckMatchesServer(f: TaskForm)
    ensures Trim(f.title) == "" <==> TitleMissing(CreatePayload(f).title)
  {
  }

  /** A form that passes the client check and holds an enum status is
      accepted by `POST /tasks`, and the record created keeps what the user
      typed: the trimmed title, the trimmed description or NULL, the status,
      and the due date or NULL. */
  lemma PayloadCreatesFormValues(f: TaskForm, id: string, now: int)
    requires Trim(f.title) != "" && IsStatusValue(f.status)
    ensures !TitleMissing(CreatePayload(f).title) && !StatusRejected(CreatePayload(f).status)
    ensures NewTask(CreatePayload(f), id, now)
         == Task(id, Trim(f.title),
                 if Blank(f.description) then None else Some(Trim(f.description)),
                 f.status,
                 if f.dueDate == "" then None else Some(f.dueDate),
                 now, now)
  {
  }

  /** The page's React state; `location` is where the router was sent. */
  class AddTaskPageState {
    var form: TaskForm
    var loading: bool
    var error: Option<string>
    var location: Option<string>

    /** The initial state: an empty form with status `todo`, not loading, no
        error. */
    constructor ()
      ensures form == InitialForm && !loading && error == None && location == None
    {
      form := InitialForm;
      loading := false;
      error := None;
      location := None;
    }

    /** `handleChange` for the input named `name`. */
    method HandleChange(name: FormField, value: string)
      modifies this
      ensures form == WithField(old(form), name, value)
      ensures loading == old(loading) && error == old(error) && location == old(location)
    {
      form := WithField(form, name, value);
    }

    /** `handleSubmit`, given whether `POST /tasks` succeeds. `sent` is the
        body of the request, `None` when none was made. A blank title stops
        the submit before any request. Otherwise the error is cleared before
        the request and `loading` is false afterwards; success navigates to
        the list, failure sets the error. */
    method HandleSubmit(createSucceeds: bool) returns (sent: Option<TaskBody>)
      modifies this
      ensures form == old(form)
      ensures Blank(old(form).title) ==>
        && sent == None && error == Some(FormTitleRequired)
        && loading == old(loading) && location == old(location)
      ensures !Blank(old(form).title) ==>
        && sent == Some(CreatePayload(old(form))) && !loading
        && (createSucceeds ==> error == None && location == Some(ListPath))
        && (!createSucceeds ==> error == Some(CreateFailed) && location == old(location))
    {
      if Trim(form.title) == "" {
        error := Some(FormTitleRequired);
        return None;
      }
      var payload := CreatePayload(form);
      loading := true;
      error := None;
      sent := Some(payload);
      if createSucceeds {
        location := Some(ListPath);
      } else {
        error := Some(CreateFailed);
      }
      loading := false;
    }
  }
}
