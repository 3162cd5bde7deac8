/**
 The task tracker's state and the three actions its forms perform
 (main.py lines 75-125): adding a task to the pending list, updating a
 pending task's links and notes, and moving a pending task to the completed
 list. Every action is a pure function from the collection before to the
 collection after; the date a task is added on is passed in.
 */
module Tracker {
  import opened Text
  import opened Links
  import opened Seqs

  /** One task record. `category` and `size` hold the option chosen in the
      form, which is the empty string until the user picks one. */
  datatype Task = Task(
    name: string,
    category: string,
    size: string,
    date: string,
    links: seq<string>,
    notes: string)

  /** The whole tracker state: tasks still pending, in insertion order, and
      tasks completed, in completion order. */
  datatype Collection = Collection(pending: seq<Task>, completed: seq<Task>)

  /** The state a fresh tracker starts from. */
  const Empty: Collection := Collection([], [])

  /** The outcome of the add form: the new state, or the rejection shown
      when a required field was left empty. */
  datatype AddResult = Added(state: Collection) | MissingRequiredField

  /** What identifies a task: the fields no update may change. */
  function Identity(t: Task): (string, string, string, string) {
    (t.name, t.category, t.size, t.date)
  }

  /** Two tasks agree on everything an update may not change. */
  predicate SameIdentity(t: Task, u: Task) {
    Identity(t) == Identity(u)
  }

  /** The identities of a list of tasks, counted with multiplicity: one
      element per task. */
  function Ids(ts: seq<Task>): (r: multiset<(string, string, string, string)>)
    ensures |r| == |ts|
    ensures forall k :: 0 <= k < |ts| ==> Identity(ts[k]) in r
    decreases |ts|
  {
    if ts == [] then multiset{}
    else Ids(ts[..|ts| - 1]) + multiset{Identity(ts[|ts| - 1])}
  }

  /** The identities of every task the tracker holds, pending or completed. */
  function AllIds(c: Collection): multiset<(string, string, string, string)> {
    Ids(c.pending) + Ids(c.completed)
  }

  /** Adds a task. It is rejected, and nothing changes, exactly when the
      name, category or size is empty; otherwise a task with the given
      fields, the links parsed from `linksText` and empty notes is appended
      to the end of the pending list, and nothing else changes. */
  function AddTask(c: Collection, name: string, category: string, size: string,
                   linksText: string, date: string): (r: AddResult)
    ensures r.MissingRequiredField? <==> name == "" || category == "" || size == ""
    ensures r.Added? ==> |r.state.pending| == |c.pending| + 1
    ensures r.Added? ==> c.pending <= r.state.pending
    ensures r.Added? ==> r.state.completed == c.completed
    ensures r.Added? ==>
      var t := r.state.pending[|c.pending|];
      t.name == name && t.category == category && t.size == size && t.date == date
      && t.links == ParseLinks(linksText) && t.notes == ""
  {
    if name == "" || category == "" || size == "" then MissingRequiredField
    else
      var t := Task(name, category, size, date, ParseLinks(linksText), "");
      Added(c.(pending := c.pending + [t]))
  }

  /** The links half of the update form: the existing links are kept as a
      prefix and the links parsed from `linksText` follow them; no other
      field changes. */
  function AppendLinks(t: Task, linksText: string): (r: Task)
    ensures t.links <= r.links
    ensures r.links[|t.links|..] == ParseLinks(linksText)
    ensures r.(links := t.links) == t
  {
    if linksText != "" then
      var u := t.(links := t.links + ParseLinks(linksText));
      assert u.links[|t.links|..] == ParseLinks(linksText);
      u
    else
      assert ParseLinks(linksText) == [] by {
        ParseLinksEmpty(linksText);
      }
      t
  }

  /** An update leaves the links as they were exactly when the links text
      holds nothing but whitespace and commas (the empty text included). */
  lemma AppendLinksUnchanged(t: Task, linksText: string)
    ensures AppendLinks(t, linksText) == t <==> SpaceOrSeparator(linksText, Comma)
  {
    ParseLinksEmpty(linksText);
    var r := AppendLinks(t, linksText);
    if r == t {
      assert |r.links| == |t.links| + |ParseLinks(linksText)|;
    }
  }

  /** The notes half of the update form: non-empty notes replace the old
      ones wholesale, empty notes leave the task as it was; no other field
      changes. */
  function SetNotes(t: Task, notes: string): (r: Task)
    ensures notes != "" ==> r.notes == notes
    ensures notes == "" ==> r == t
    ensures r.(notes := t.notes) == t
  {
    if notes != "" then t.(notes := notes) else t
  }

  /** Updates pending task `i`: its links grow by the parsed `linksText`,
      its notes are replaced by `notes` when that is non-empty, and its
      name, category, size and date stay. No other task, and nothing in the
      completed list, changes. */
  function UpdateTask(c: Collection, i: nat, linksText: string, notes: string): (r: Collection)
    requires i < |c.pending|
    ensures |r.pending| == |c.pending| && r.completed == c.completed
    ensures forall j :: 0 <= j < |c.pending| && j != i ==> r.pending[j] == c.pending[j]
    ensures SameIdentity(r.pending[i], c.pending[i])
    ensures c.pending[i].links <= r.pending[i].links
    ensures r.pending[i].links[|c.pending[i].links|..] == ParseLinks(linksText)
    ensures r.pending[i].notes == if notes != "" then notes else c.pending[i].notes
  {
    var t := SetNotes(AppendLinks(c.pending[i], linksText), notes);
    c.(pending := c.pending[i := t])
  }

  /** Marks pending task `i` completed: it leaves the pending list, the
      tasks after it move up one place, and it is appended, unmodified, to
      the end of the completed list. No task is lost or created. */
  function CompleteTask(c: Collection, i: nat): (r: Collection)
    requires i < |c.pending|
    ensures |r.pending| == |c.pending| - 1
    ensures forall j :: 0 <= j < i ==> r.pending[j] == c.pending[j]
    ensures forall j :: i <= j < |r.pending| ==> r.pending[j] == c.pending[j + 1]
    ensures c.completed <= r.completed
    ensures |r.completed| == |c.completed| + 1
    ensures r.completed[|c.completed|] == c.pending[i]
    ensures multiset(r.pending) + multiset(r.completed)
         == multiset(c.pending) + multiset(c.completed)
  {
    var t := c.pending[i];
    var rest := c.pending[..i] + c.pending[i + 1..];
    assert c.pending == c.pending[..i] + [t] + c.pending[i + 1..];
    Collection(rest, c.completed + [t])
  }

  /** Once a task has notes, no update can clear them: submitting empty
      notes keeps the old ones, so setting "" after setting `notes` leaves
      `notes` in place. */
  lemma NotesNeverCleared(t: Task, notes: string, later: string)
    requires t.notes != ""
    ensures SetNotes(t, later).notes != ""
    ensures SetNotes(SetNotes(t, notes), "") == SetNotes(t, notes)
  {
  }

  /** Everything a task built by the add form satisfies: the required
      fields are filled in and every link is non-empty and trimmed. */
  predicate WellFormedTask(t: Task) {
    && t.name != ""
    && t.category != ""
    && t.size != ""
    && forall k :: 0 <= k < |t.links| ==> IsLink(t.links[k])
  }

  /** Every task in the collection, pending or completed, is well formed. */
  predicate WellFormed(c: Collection) {
    && (forall j :: 0 <= j < |c.pending| ==> WellFormedTask(c.pending[j]))
    && (forall j :: 0 <= j < |c.completed| ==> WellFormedTask(c.completed[j]))
  }

  /** A successful add keeps the collection well formed: the add form
      refuses empty required fields and the parsed links are clean. */
  lemma AddKeepsWellFormed(c: Collection, name: string, category: string, size: string,
                           linksText: string, date: string)
    requires AddTask(c, name, category, size, linksText, date).Added?
    ensures WellFormed(c) ==> WellFormed(AddTask(c, name, category, size, linksText, date).state)
  {
  }

  /** An update keeps the collection well formed: the links it appends are
      clean, and it touches neither the required fields nor other tasks. */
  lemma UpdateKeepsWellFormed(c: Collection, i: nat, linksText: string, notes: string)
    requires i < |c.pending|
    ensures WellFormed(c) ==> WellFormed(UpdateTask(c, i, linksText, notes))
  {
  }

  /** Completing a task keeps the collection well formed: it only moves a
      task from one list to the other. */
  lemma CompleteKeepsWellFormed(c: Collection, i: nat)
    requires i < |c.pending|
    ensures WellFormed(c) ==> WellFormed(CompleteTask(c, i))
  {
  }

  /** The identities of a concatenation are those of its parts. */
  lemma {:induction false} IdsConcat(a: seq<Task>, b: seq<Task>)
    ensures Ids(a + b) == Ids(a) + Ids(b)
    decreases |b|
  {
    if b == [] {
      assert a + b == a;
    } else {
      var b' := b[..|b| - 1];
      assert (a + b)[..|a + b| - 1] == a + b';
      IdsConcat(a, b');
    }
  }

  /** A successful add introduces exactly one task, the new one, and keeps
      every task that was there. */
  lemma AddKeepsTasks(c: Collection, name: string, category: string, size: string,
                      linksText: string, date: string)
    requires AddTask(c, name, category, size, linksText, date).Added?
    ensures AllIds(AddTask(c, name, category, size, linksText, date).state)
         == AllIds(c) + multiset{(name, category, size, date)}
  {
  }

  /** An update replaces a task by one with the same identity: no task is
      lost, duplicated or renamed. */
  lemma UpdateKeepsTasks(c: Collection, i: nat, linksText: string, notes: string)
    requires i < |c.pending|
    ensures AllIds(UpdateTask(c, i, linksText, notes)) == AllIds(c)
  {
    var p := c.pending;
    var q := UpdateTask(c, i, linksText, notes).pending;
    assert p == p[..i] + [p[i]] + p[i + 1..];
    assert q == p[..i] + [q[i]] + p[i + 1..];
    IdsConcat(p[..i] + [p[i]], p[i + 1..]);
    IdsConcat(p[..i], [p[i]]);
    IdsConcat(p[..i] + [q[i]], p[i + 1..]);
    IdsConcat(p[..i], [q[i]]);
    assert [p[i]][..0] == [] && [q[i]][..0] == [];
  }

  /** Completing a task moves it between the lists: the tracker holds the
      same tasks before and after. */
  lemma CompleteKeepsTasks(c: Collection, i: nat)
    requires i < |c.pending|
    ensures AllIds(CompleteTask(c, i)) == AllIds(c)
  {
    var p := c.pending;
    var r := CompleteTask(c, i);
    assert p == p[..i] + [p[i]] + p[i + 1..];
    assert r.pending == p[..i] + p[i + 1..];
    assert r.completed == c.completed + [p[i]];
    IdsConcat(p[..i] + [p[i]], p[i + 1..]);
    IdsConcat(p[..i], [p[i]]);
    IdsConcat(p[..i], p[i + 1..]);
    IdsConcat(c.completed, [p[i]]);
    assert [p[i]][..0] == [];
  }

  /** What the user can submit: the add form, or the update form or the
      completion button of the pending task at `index`. */
  datatype Action =
    | Add(name: string, category: string, size: string, linksText: string, date: string)
    | Update(index: nat, linksText: string, notes: string)
    | Complete(index: nat)

  /** The update form and completion button exist only for the pending
      tasks on display, so their index is in range. */
  predicate Enabled(c: Collection, a: Action) {
    match a
    case Add(_, _, _, _, _) => true
    case Update(i, _, _) => i < |c.pending|
    case Complete(i) => i < |c.pending|
  }

  /** The state after one submitted action. A rejected add leaves the state
      as it was. Every action keeps the collection well formed, never
      removes or alters a completed task, and deletes no task: every task
      identity present before is still present after, with multiplicity. */
  function Apply(c: Collection, a: Action): (r: Collection)
    requires Enabled(c, a)
    ensures a.Add? && (a.name == "" || a.category == "" || a.size == "") ==> r == c
    ensures WellFormed(c) ==> WellFormed(r)
    ensures c.completed <= r.completed
    ensures |r.pending| + |r.completed| >= |c.pending| + |c.completed|
    ensures AllIds(c) <= AllIds(r)
  {
    match a
    case Add(name, category, size, linksText, date) =>
      (match AddTask(c, name, category, size, linksText, date)
       case Added(s) =>
         AddKeepsWellFormed(c, name, category, size, linksText, date);
         AddKeepsTasks(c, name, category, size, linksText, date);
         s
       case MissingRequiredField => c)
    case Update(i, linksText, notes) =>
      UpdateKeepsWellFormed(c, i, linksText, notes);
      UpdateKeepsTasks(c, i, linksText, notes);
      UpdateTask(c, i, linksText, notes)
    case Complete(i) =>
      CompleteKeepsWellFormed(c, i);
      CompleteKeepsTasks(c, i);
      CompleteTask(c, i)
  }

  /** True iff every action of the sequence is enabled in the state the
      earlier ones lead to. */
  predicate Runnable(c: Collection, actions: seq<Action>)
    decreases |actions|
  {
    actions == [] || (Enabled(c, actions[0]) && Runnable(Apply(c, actions[0]), actions[1..]))
  }

  /** The state after a session of actions, applied in order. Over a whole
      session the collection stays well formed, the completed list is only
      ever extended (no task is reopened or edited once completed), and no
      task identity present at the start is lost. */
  function Run(c: Collection, actions: seq<Action>): (r: Collection)
    requires Runnable(c, actions)
    ensures WellFormed(c) ==> WellFormed(r)
    ensures c.completed <= r.completed
    ensures |r.pending| + |r.completed| >= |c.pending| + |c.completed|
    ensures AllIds(c) <= AllIds(r)
    decreases |actions|
  {
    if actions == [] then c else Run(Apply(c, actions[0]), actions[1..])
  }

  /** Every state reachable from a fresh tracker is well formed. */
  lemma ReachableWellFormed(actions: seq<Action>)
    requires Runnable(Empty, actions)
    ensures WellFormed(Run(Empty, actions))
  {
  }
}
