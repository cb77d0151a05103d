/**
 * The reminders page: add a reminder from the form, delete a reminder, the
 * view filtered by category and sorted by date and time, and the per-category
 * counters.
 */
module Reminders {
  import opened Text
  import opened Collections

  datatype Category = Personal | Work

  /** The selected filter: every category, or one of them. */
  datatype CategoryFilter = All | Only(category: Category)

  datatype NotificationType = Page | Email | Both

  /** The optional `description` field. */
  datatype Description = NoDescription | Description(text: string)

  datatype Reminder = Reminder(
    id: string,
    title: string,
    description: Description,
    date: string,
    time: string,
    category: Category,
    notificationType: NotificationType,
    notified: bool)

  /** The contents of the add form. */
  datatype ReminderForm = ReminderForm(
    title: string,
    description: string,
    date: string,
    time: string,
    category: Category,
    notificationType: NotificationType)

  /** The list the page starts with. */
  const InitialReminders: seq<Reminder> := [
    Reminder("1", "Reunião com equipa", Description("Discussão do projeto Q1"), "2024-01-10", "10:00", Work, Both, false),
    Reminder("2", "Consulta médica", NoDescription, "2024-01-15", "14:30", Personal, Page, false),
    Reminder("3", "Entrega do relatório", Description("Relatório mensal de vendas"), "2024-01-20", "18:00", Work, Email, false)
  ]

  /** The add form requires a title that is not blank, a date and a time. */
  predicate IsComplete(form: ReminderForm)
  {
    !IsBlank(form.title) && form.date != "" && form.time != ""
  }

  /** `{ id, ...newReminder, notified: false }`: the form's fields as they are, title untrimmed. */
  function FromForm(form: ReminderForm, id: string): (r: Reminder)
    ensures r.id == id && !r.notified
    ensures r.title == form.title && r.description == Description(form.description)
    ensures r.date == form.date && r.time == form.time
    ensures r.category == form.category && r.notificationType == form.notificationType
  {
    Reminder(id, form.title, Description(form.description), form.date, form.time,
             form.category, form.notificationType, false)
  }

  function ReminderIdIsNot(id: string): Reminder -> bool
  {
    (r: Reminder) => r.id != id
  }

  /** `reminders.filter((r) => r.id !== id)` */
  function WithoutReminder(rs: seq<Reminder>, id: string): (r: seq<Reminder>)
    ensures |r| <= |rs|
    ensures forall i :: 0 <= i < |r| ==> r[i].id != id && r[i] in rs
    ensures forall i :: 0 <= i < |rs| && rs[i].id != id ==> rs[i] in r
  {
    Filter(rs, ReminderIdIsNot(id))
  }

  /**
   * Deleting keeps exactly the reminders with another id, in their order, and
   * undoes adding a reminder under an id not yet in use.
   */
  lemma DeleteReminderKeepsOthers(rs: seq<Reminder>, id: string, r: Reminder)
    ensures forall i :: 0 <= i < |WithoutReminder(rs, id)| ==> WithoutReminder(rs, id)[i].id != id
    ensures forall i :: 0 <= i < |rs| && rs[i].id != id ==> rs[i] in WithoutReminder(rs, id)
    ensures WithoutReminder(rs + [r], id) == WithoutReminder(rs, id) + (if r.id == id then [] else [r])
    ensures (forall i :: 0 <= i < |rs| ==> rs[i].id != r.id) ==> WithoutReminder(rs + [r], r.id) == rs
  {
    FilterAppend(rs, [r], ReminderIdIsNot(id));
    FilterAppend(rs, [r], ReminderIdIsNot(r.id));
    FilterAll(rs, ReminderIdIsNot(r.id));
  }

  /** Deleting an absent id changes nothing, and deleting twice is deleting once. */
  lemma DeleteReminderIdempotent(rs: seq<Reminder>, id: string)
    ensures (forall i :: 0 <= i < |rs| ==> rs[i].id != id) ==> WithoutReminder(rs, id) == rs
    ensures WithoutReminder(WithoutReminder(rs, id), id) == WithoutReminder(rs, id)
  {
    FilterAll(rs, ReminderIdIsNot(id));
    FilterIdempotent(rs, ReminderIdIsNot(id));
  }

  /** `filterCategory === "all" || r.category === filterCategory` */
  function Matches(filter: CategoryFilter): Reminder -> bool
  {
    (r: Reminder) => filter.All? || r.category == filter.category
  }

  /**
   * The instant `new Date(`${date}T${time}`)` names, as the pair (date, time):
   * with `YYYY-MM-DD` dates and `HH:MM` times, comparing the pair field by
   * field as strings orders instants chronologically.
   */
  function InstantOf(r: Reminder): (string, string)
  {
    (r.date, r.time)
  }

  function InstantLe(a: (string, string), b: (string, string)): bool
  {
    (LexLe(a.0, b.0) && a.0 != b.0) || (a.0 == b.0 && LexLe(a.1, b.1))
  }

  /** Instants are totally preordered. */
  lemma InstantLeTotalPreorder()
    ensures Total(InstantLe) && Transitive(InstantLe)
  {
    forall a: (string, string), b: (string, string)
      ensures InstantLe(a, b) || InstantLe(b, a)
    {
      LexLeTotal(a.0, b.0);
      LexLeTotal(a.1, b.1);
    }
    forall a: (string, string), b: (string, string), c: (string, string) | InstantLe(a, b) && InstantLe(b, c)
      ensures InstantLe(a, c)
    {
      if a.0 != b.0 && b.0 != c.0 {
        LexLeTransitive(a.0, b.0, c.0);
        if a.0 == c.0 {
          LexLeAntisymmetric(a.0, b.0);
        }
      } else if a.0 == b.0 && b.0 == c.0 {
        LexLeTransitive(a.1, b.1, c.1);
      }
    }
  }

  /** `reminders.filter(matches).sort(byInstant)` */
  function FilteredReminders(rs: seq<Reminder>, filter: CategoryFilter): (view: seq<Reminder>)
    ensures |view| <= |rs|
    ensures filter.All? ==> multiset(view) == multiset(rs)
  {
    FilterAll(rs, Matches(filter));
    SortBy(Filter(rs, Matches(filter)), InstantOf, InstantLe)
  }

  /**
   * The view holds exactly the reminders of the selected category (all of
   * them for "all"), each as often as in the list, ordered by date and time,
   * reminders at the same instant in list order.
   */
  lemma FilteredRemindersSpec(rs: seq<Reminder>, filter: CategoryFilter)
    ensures multiset(FilteredReminders(rs, filter)) == multiset(Filter(rs, Matches(filter)))
    ensures forall r :: r in FilteredReminders(rs, filter) <==> r in rs && (filter.All? || r.category == filter.category)
    ensures filter.All? ==> multiset(FilteredReminders(rs, filter)) == multiset(rs)
    ensures forall i, j :: 0 <= i < j < |FilteredReminders(rs, filter)|
              ==> InstantLe(InstantOf(FilteredReminders(rs, filter)[i]), InstantOf(FilteredReminders(rs, filter)[j]))
    ensures forall instant :: WithKey(FilteredReminders(rs, filter), InstantOf, instant)
                              == WithKey(Filter(rs, Matches(filter)), InstantOf, instant)
  {
    var kept := Filter(rs, Matches(filter));
    InstantLeTotalPreorder();
    SortBySorted(kept, InstantOf, InstantLe);
    forall instant {
      SortByStable(kept, InstantOf, InstantLe, instant);
    }
    forall r
      ensures r in FilteredReminders(rs, filter) <==> r in rs && (filter.All? || r.category == filter.category)
    {
      assert r in FilteredReminders(rs, filter) <==> r in multiset(kept);
    }
    FilterAll(rs, Matches(filter));
  }

  function IsWork(r: Reminder): bool
  {
    r.category == Work
  }

  function IsPersonal(r: Reminder): bool
  {
    r.category == Personal
  }

  /** `reminders.filter((r) => r.category === "work").length`, over the unfiltered list. */
  function WorkCount(rs: seq<Reminder>): (n: nat)
    ensures n <= |rs|
    ensures n == 0 <==> forall i :: 0 <= i < |rs| ==> rs[i].category == Personal
  {
    Count(rs, IsWork)
  }

  /** `reminders.filter((r) => r.category === "personal").length`, over the unfiltered list. */
  function PersonalCount(rs: seq<Reminder>): (n: nat)
    ensures n <= |rs|
    ensures n == 0 <==> forall i :: 0 <= i < |rs| ==> rs[i].category == Work
  {
    Count(rs, IsPersonal)
  }

  /** Every reminder belongs to exactly one of the two categories. */
  lemma CategoryCountsPartition(rs: seq<Reminder>)
    ensures WorkCount(rs) + PersonalCount(rs) == |rs|
  {
    CountComplement(rs, IsWork, IsPersonal);
  }

  /** A category's counter is the length of the view filtered to that category. */
  lemma CountIsFilteredLength(rs: seq<Reminder>)
    ensures |FilteredReminders(rs, Only(Work))| == WorkCount(rs)
    ensures |FilteredReminders(rs, Only(Personal))| == PersonalCount(rs)
  {
    FilterSameTest(rs, Matches(Only(Work)), IsWork);
    FilterSameTest(rs, Matches(Only(Personal)), IsPersonal);
  }

  lemma {:induction false} FilterSameTest(rs: seq<Reminder>, p: Reminder -> bool, q: Reminder -> bool)
    requires forall r :: p(r) == q(r)
    ensures Filter(rs, p) == Filter(rs, q)
  {
    if rs != [] {
      FilterSameTest(rs[1..], p, q);
    }
  }

  /** With two work reminders and one personal one, the "work" view shows two. */
  lemma InitialWorkView()
    ensures |FilteredReminders(InitialReminders, Only(Work))| == 2
    ensures WorkCount(InitialReminders) == 2 && PersonalCount(InitialReminders) == 1
  {
    var rs := InitialReminders;
    assert rs[1..][1..][1..] == [];
    CountIsFilteredLength(rs);
  }

  /** The reminders page's state: the list and the selected category filter. */
  class ReminderList {
    var reminders: seq<Reminder>
    var filterCategory: CategoryFilter

    constructor ()
      ensures reminders == InitialReminders && filterCategory == All
    {
      reminders := InitialReminders;
      filterCategory := All;
    }

    /**
     * `addReminder`: when the form is complete, appends the form's reminder
     * under `id`, not yet notified; otherwise nothing changes.
     */
    method AddReminder(form: ReminderForm, id: string)
      modifies this
      ensures IsComplete(form) ==> reminders == old(reminders) + [FromForm(form, id)]
      ensures !IsComplete(form) ==> reminders == old(reminders)
      ensures filterCategory == old(filterCategory)
    {
      if IsComplete(form) {
        reminders := reminders + [FromForm(form, id)];
      }
    }

    /** `deleteReminder`: drops every reminder with this id. */
    method DeleteReminder(id: string)
      modifies this
      ensures reminders == WithoutReminder(old(reminders), id)
      ensures filterCategory == old(filterCategory)
    {
      reminders := WithoutReminder(reminders, id);
    }

    /** `setFilterCategory`: selects what the view shows; the list and both counters stay as they were. */
    method SetFilterCategory(filter: CategoryFilter)
      modifies this
      ensures filterCategory == filter && reminders == old(reminders)
      ensures WorkCount(reminders) == old(WorkCount(reminders))
      ensures PersonalCount(reminders) == old(PersonalCount(reminders))
    {
      filterCategory := filter;
    }
  }
}
