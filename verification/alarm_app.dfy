/**
 * The alarm bookkeeping of app.py: `AlarmManager` keeps one scheduled job per
 * alarm id, `SettingsWindow` keeps the list of alarms, and `EditAlarmDialog`
 * validates an edited time before handing the alarm back to the window.
 */
module AlarmApp {
  import opened Wrappers
  import opened AlarmTime

  /** One entry of the alarm list (the dict with keys 'time', 'music', 'name'). */
  datatype AlarmData = AlarmData(time: string, music: string, name: string)

  /** The entry `SettingsWindow.add_alarm` appends. */
  const NewAlarm := AlarmData("07:00", "audios/default.mp3", "")

  /**
   * A scheduler job that plays `music` every day at hour:minute:00. Each call
   * of the scheduler's `add_job` creates a distinct job; `serial` tells them apart.
   */
  datatype Job = Job(serial: nat, hour: int, minute: int, music: string)

  /** The job `update_alarm` creates for an alarm. */
  function JobFor(serial: nat, data: AlarmData): (job: Job)
    requires Schedulable(data.time)
    ensures Runs(job, data) && job.serial == serial
  {
    var (hour, minute) := ParseTime(data.time).value;
    Job(serial, hour, minute, data.music)
  }

  /** `job` rings at the alarm's time and plays its music. */
  predicate Runs(job: Job, data: AlarmData) {
    ParseTime(data.time) == Some((job.hour, job.minute)) && job.music == data.music
  }

  /** The jobs a removal under `id` cancels: the one stored there, if any. */
  function Cancelled(jobs: map<int, Job>, id: int): set<Job> {
    if id in jobs then {jobs[id]} else {}
  }

  class AlarmManager {
    /** `self.jobs`: alarm id to its scheduled job. */
    var jobs: map<int, Job>
    /** The jobs the background scheduler will run. */
    var scheduled: set<Job>
    /** Serial of the next job the scheduler creates. */
    var nextSerial: nat

    /** Every scheduled job is recorded under exactly one id and nothing else is recorded. */
    ghost predicate Valid()
      reads this
    {
      && scheduled == Recorded(jobs)
      && Injective(jobs)
      && (forall job :: job in scheduled ==> job.serial < nextSerial)
    }

    constructor ()
      ensures Valid()
      ensures jobs == map[] && scheduled == {}
    {
      jobs := map[];
      scheduled := {};
      nextSerial := 0;
    }

    /** `update_alarm`: cancel the alarm's old job, if any, and schedule a new one in its place. */
    method UpdateAlarm(alarmId: int, data: AlarmData)
      requires Valid()
      requires Schedulable(data.time)
      modifies this
      ensures Valid()
      ensures nextSerial == old(nextSerial) + 1
      ensures jobs == old(jobs)[alarmId := JobFor(old(nextSerial), data)]
      ensures JobFor(old(nextSerial), data) !in old(scheduled)
      ensures scheduled == old(scheduled) - Cancelled(old(jobs), alarmId) + {JobFor(old(nextSerial), data)}
    {
      if alarmId in jobs {
        scheduled := scheduled - {jobs[alarmId]};
      }
      assert scheduled == old(scheduled) - Cancelled(old(jobs), alarmId);
      var job := JobFor(nextSerial, data);
      assert job !in old(scheduled);
      nextSerial := nextSerial + 1;
      scheduled := scheduled + {job};
      assert forall j :: j in scheduled ==> j.serial < nextSerial;
      RecordedAfterStore(jobs, alarmId, job);
      jobs := jobs[alarmId := job];
    }

    /** `delete_alarm`: cancel and forget the alarm's job; nothing happens for an unknown id. */
    method DeleteAlarm(alarmId: int)
      requires Valid()
      modifies this
      ensures Valid()
      ensures nextSerial == old(nextSerial)
      ensures jobs == old(jobs) - {alarmId}
      ensures scheduled == old(scheduled) - Cancelled(old(jobs), alarmId)
    {
      RecordedAfterRemove(jobs, alarmId);
      scheduled := scheduled - Cancelled(jobs, alarmId);
      jobs := jobs - {alarmId};
    }
  }

  /** The jobs recorded in the map, under whatever id. */
  function Recorded(jobs: map<int, Job>): set<Job> {
    set k | k in jobs :: jobs[k]
  }

  /** No job is recorded under two ids. */
  predicate Injective(jobs: map<int, Job>) {
    forall a, b :: a in jobs && b in jobs && a != b ==> jobs[a] != jobs[b]
  }

  /** Storing a new job under `id` replaces only the job stored there before. */
  lemma RecordedAfterStore(jobs: map<int, Job>, id: int, job: Job)
    requires Injective(jobs) && job !in Recorded(jobs)
    ensures Injective(jobs[id := job])
    ensures Recorded(jobs[id := job]) == Recorded(jobs) - Cancelled(jobs, id) + {job}
  {
    var after := jobs[id := job];
    forall v | v in Recorded(jobs) - Cancelled(jobs, id)
      ensures v in Recorded(after)
    {
      var k :| k in jobs && jobs[k] == v;
      assert k != id;
      assert after[k] == v;
    }
    forall v | v in Recorded(after)
      ensures v in Recorded(jobs) - Cancelled(jobs, id) + {job}
    {
      var k :| k in after && after[k] == v;
      if k != id {
        assert jobs[k] == v;
      }
    }
    assert after[id] == job;
  }

  /** Removing `id` forgets only the job stored under it. */
  lemma RecordedAfterRemove(jobs: map<int, Job>, id: int)
    requires Injective(jobs)
    ensures Injective(jobs - {id})
    ensures Recorded(jobs - {id}) == Recorded(jobs) - Cancelled(jobs, id)
  {
    var after := jobs - {id};
    forall v | v in Recorded(jobs) - Cancelled(jobs, id)
      ensures v in Recorded(after)
    {
      var k :| k in jobs && jobs[k] == v;
      assert k != id;
      assert after[k] == v;
    }
  }

  /** `del s[i]`: the entry at `i` goes, later entries move down by one. */
  function RemoveAt<T>(s: seq<T>, i: nat): (r: seq<T>)
    requires i < |s|
    ensures |r| == |s| - 1
    ensures forall k :: 0 <= k < |r| ==> r[k] == if k < i then s[k] else s[k + 1]
  {
    s[..i] + s[i + 1..]
  }

  class SettingsWindow {
    /** `self.alarms`, the list the window shows and edits. */
    var alarms: seq<AlarmData>
    /** What alarms.json holds: the list as last written, `None` while the file does not exist. */
    var saved: Option<seq<AlarmData>>
    const manager: AlarmManager

    ghost predicate Valid()
      reads this, manager
    {
      manager.Valid()
    }

    /** Opening the window loads the list from alarms.json, or starts empty when the file is missing. */
    constructor (manager: AlarmManager, stored: Option<seq<AlarmData>>)
      requires manager.Valid()
      ensures Valid()
      ensures this.manager == manager
      ensures alarms == (if stored.Some? then stored.value else [])
      ensures saved == stored
    {
      this.manager := manager;
      alarms := if stored.Some? then stored.value else [];
      saved := stored;
    }

    /** `add_alarm`: append the default alarm; it is neither saved nor scheduled. */
    method AddAlarm()
      modifies this`alarms
      ensures alarms == old(alarms) + [NewAlarm]
    {
      alarms := alarms + [NewAlarm];
    }

    /** `edit_alarm`: open the dialog on the entry at `index`. */
    method EditAlarm(index: nat) returns (dialog: EditAlarmDialog)
      requires index < |alarms|
      ensures fresh(dialog)
      ensures dialog.window == this && dialog.index == index
    {
      dialog := new EditAlarmDialog(this, index);
    }

    /** `update_alarm`: replace the entry, save the list, and reschedule under the same index. */
    method UpdateAlarm(index: nat, data: AlarmData)
      requires Valid()
      requires index < |alarms|
      requires Schedulable(data.time)
      modifies this`alarms, this`saved, manager
      ensures Valid()
      ensures alarms == old(alarms)[index := data]
      ensures saved == Some(alarms)
      ensures manager.nextSerial == old(manager.nextSerial) + 1
      ensures manager.jobs == old(manager.jobs)[index := JobFor(old(manager.nextSerial), data)]
      ensures manager.scheduled ==
        old(manager.scheduled) - Cancelled(old(manager.jobs), index) + {JobFor(old(manager.nextSerial), data)}
    {
      alarms := alarms[index := data];
      saved := Some(alarms);
      manager.UpdateAlarm(index, data);
    }

    /**
     * `delete_alarm`: remove the entry (later entries move down), save the
     * list, and drop the job under `index` only; jobs under later indices keep
     * their old keys.
     */
    method DeleteAlarm(index: nat)
      requires Valid()
      requires index < |alarms|
      modifies this`alarms, this`saved, manager
      ensures Valid()
      ensures alarms == RemoveAt(old(alarms), index)
      ensures saved == Some(alarms)
      ensures manager.nextSerial == old(manager.nextSerial)
      ensures manager.jobs == old(manager.jobs) - {index}
      ensures manager.scheduled == old(manager.scheduled) - Cancelled(old(manager.jobs), index)
    {
      alarms := RemoveAt(alarms, index);
      saved := Some(alarms);
      manager.DeleteAlarm(index);
    }
  }

  class EditAlarmDialog {
    const window: SettingsWindow
    /** `self.alarm_index`. The dialog's `alarm_data` is the very entry `window.alarms[index]`. */
    const index: nat

    constructor (window: SettingsWindow, index: nat)
      ensures this.window == window && this.index == index
    {
      this.window := window;
      this.index := index;
    }

    /**
     * `save`: the entered fields are written into the shared entry first;
     * only a time `validate_time` accepts is passed on to the window's
     * `update_alarm`. A rejected time therefore still changes the in-memory
     * list, but neither saves it nor touches the scheduled jobs.
     */
    method Save(time: string, music: string, name: string) returns (accepted: bool)
      requires window.Valid()
      requires index < |window.alarms|
      modifies window`alarms, window`saved, window.manager
      ensures window.Valid()
      ensures accepted == ValidateTime(time)
      ensures window.alarms == old(window.alarms)[index := AlarmData(time, music, name)]
      ensures accepted ==> window.saved == Some(window.alarms)
      ensures accepted ==> Schedulable(time)
      ensures accepted ==> window.manager.nextSerial == old(window.manager.nextSerial) + 1
      ensures accepted ==>
        window.manager.jobs == old(window.manager.jobs)[index := JobFor(old(window.manager.nextSerial), AlarmData(time, music, name))]
      ensures accepted ==>
        window.manager.scheduled == old(window.manager.scheduled) - Cancelled(old(window.manager.jobs), index)
          + {JobFor(old(window.manager.nextSerial), AlarmData(time, music, name))}
      ensures !accepted ==> window.saved == old(window.saved) && unchanged(window.manager)
    {
      var edited := AlarmData(time, music, name);
      window.alarms := window.alarms[index := edited];
      accepted := ValidateTime(time);
      if !accepted {
        return;
      }
      ValidatedTimeIsSchedulable(time);
      window.UpdateAlarm(index, edited);
    }

    /** `delete`: hand the index to the window's `delete_alarm`. */
    method Delete()
      requires window.Valid()
      requires index < |window.alarms|
      modifies window`alarms, window`saved, window.manager
      ensures window.Valid()
      ensures window.alarms == RemoveAt(old(window.alarms), index)
      ensures window.saved == Some(window.alarms)
      ensures window.manager.nextSerial == old(window.manager.nextSerial)
      ensures window.manager.jobs == old(window.manager.jobs) - {index}
      ensures window.manager.scheduled == old(window.manager.scheduled) - Cancelled(old(window.manager.jobs), index)
    {
      window.DeleteAlarm(index);
    }
  }

  // ---------------------------------------------------------------------
  // How the job map relates to the alarm list.

  /** Every job is recorded under the position of an existing alarm. */
  predicate NoOrphanJobs(count: nat, jobs: map<int, Job>) {
    forall k :: k in jobs ==> 0 <= k < count
  }

  /** Every job is recorded under the position of an alarm it serves, for a given relation `serves`. */
  predicate AttachedBy<A, J>(alarms: seq<A>, jobs: map<int, J>, serves: (J, A) -> bool) {
    forall k :: k in jobs ==> 0 <= k < |alarms| && serves(jobs[k], alarms[k])
  }

  /** Every job is recorded under the position of the alarm it rings for. */
  predicate InSync(alarms: seq<AlarmData>, jobs: map<int, Job>) {
    AttachedBy(alarms, jobs, Runs)
  }

  lemma AppendKeepsAttached<A, J>(alarms: seq<A>, jobs: map<int, J>, serves: (J, A) -> bool, a: A)
    requires AttachedBy(alarms, jobs, serves)
    ensures AttachedBy(alarms + [a], jobs, serves)
  {
    forall k | k in jobs
      ensures 0 <= k < |alarms + [a]| && serves(jobs[k], (alarms + [a])[k])
    {
      assert (alarms + [a])[k] == alarms[k];
    }
  }

  lemma StoreKeepsAttached<A, J>(alarms: seq<A>, jobs: map<int, J>, serves: (J, A) -> bool, i: nat, a: A, j: J)
    requires AttachedBy(alarms, jobs, serves)
    requires i < |alarms| && serves(j, a)
    ensures AttachedBy(alarms[i := a], jobs[i := j], serves)
  {
  }

  lemma DeleteKeepsAttachedIff<A, J>(alarms: seq<A>, jobs: map<int, J>, serves: (J, A) -> bool, i: nat)
    requires AttachedBy(alarms, jobs, serves)
    requires i < |alarms|
    ensures AttachedBy(RemoveAt(alarms, i), jobs - {i}, serves) <==>
      forall k :: k in jobs && k > i ==> k < |alarms| - 1 && serves(jobs[k], alarms[k + 1])
  {
    var after := RemoveAt(alarms, i);
    var kept := jobs - {i};
    if AttachedBy(after, kept, serves) {
      forall k | k in jobs && k > i
        ensures k < |alarms| - 1 && serves(jobs[k], alarms[k + 1])
      {
        assert k in kept && kept[k] == jobs[k];
        assert after[k] == alarms[k + 1];
      }
    }
    if forall k :: k in jobs && k > i ==> k < |alarms| - 1 && serves(jobs[k], alarms[k + 1]) {
      forall k | k in kept
        ensures 0 <= k < |after| && serves(kept[k], after[k])
      {
        assert kept[k] == jobs[k];
        if k < i {
          assert after[k] == alarms[k];
        } else {
          assert after[k] == alarms[k + 1];
        }
      }
    }
  }

  /** Appending an alarm keeps every job attached to its alarm. */
  lemma AddKeepsInSync(alarms: seq<AlarmData>, jobs: map<int, Job>)
    requires InSync(alarms, jobs)
    ensures InSync(alarms + [NewAlarm], jobs)
  {
    AppendKeepsAttached(alarms, jobs, Runs, NewAlarm);
  }

  /** Updating entry `i` and its job together keeps every job attached to its alarm. */
  lemma UpdateKeepsInSync(alarms: seq<AlarmData>, jobs: map<int, Job>, i: nat, data: AlarmData, serial: nat)
    requires InSync(alarms, jobs)
    requires i < |alarms| && Schedulable(data.time)
    ensures InSync(alarms[i := data], jobs[i := JobFor(serial, data)])
  {
    StoreKeepsAttached(alarms, jobs, Runs, i, data, JobFor(serial, data));
  }

  /**
   * After a deletion, the jobs stay attached to their alarms exactly when
   * every job under a later key already ran the alarm that now moves into
   * that position (keys are not renumbered).
   */
  lemma DeleteKeepsInSyncIff(alarms: seq<AlarmData>, jobs: map<int, Job>, i: nat)
    requires InSync(alarms, jobs)
    requires i < |alarms|
    ensures InSync(RemoveAt(alarms, i), jobs - {i}) <==>
      forall k :: k in jobs && k > i ==> k < |alarms| - 1 && Runs(jobs[k], alarms[k + 1])
  {
    DeleteKeepsAttachedIff(alarms, jobs, Runs, i);
  }

  /**
   * Deleting entry `i` and the job under key `i` leaves no job under a
   * missing position exactly when the last entry was deleted or the last
   * position had no job.
   */
  lemma DeleteKeepsNoOrphansIff(count: nat, jobs: map<int, Job>, i: nat)
    requires NoOrphanJobs(count, jobs)
    requires i < count
    ensures NoOrphanJobs(count - 1, jobs - {i}) <==> (i == count - 1 || count - 1 !in jobs)
  {
    if i != count - 1 && count - 1 in jobs {
      assert count - 1 in jobs - {i};
    }
  }

  /**
   * The stale key: with jobs under both positions of a two-entry list,
   * deleting the first entry leaves the second's job under key 1, a position
   * the one-entry list no longer has.
   */
  lemma DeleteFirstOfTwoLeavesStaleKey(first: Job, second: Job)
    ensures NoOrphanJobs(2, map[0 := first, 1 := second])
    ensures var kept := map[0 := first, 1 := second] - {0};
      1 in kept && kept[1] == second && !NoOrphanJobs(1, kept)
  {
    var jobs := map[0 := first, 1 := second];
    assert jobs.Keys == {0, 1};
    DeleteKeepsNoOrphansIff(2, jobs, 0);
  }

  // ---------------------------------------------------------------------
  // The alarm buttons of `display_alarms`.

  /** A button of the alarm tab: its caption and the index its command opens. */
  datatype Button = Button(caption: string, target: int)

  function Label(data: AlarmData): string {
    data.time + " " + data.name
  }

  /**
   * The buttons as written: each command is `lambda: self.edit_alarm(i)`,
   * and the lambda reads the loop variable `i` when clicked, after the loop
   * has left it at the last index.
   */
  function DisplayAsWritten(alarms: seq<AlarmData>): (buttons: seq<Button>)
    ensures |buttons| == |alarms|
    ensures forall k :: 0 <= k < |alarms| ==> buttons[k].caption == Label(alarms[k])
    ensures forall k :: 0 <= k < |alarms| ==> buttons[k].target == |alarms| - 1
  {
    seq(|alarms|, k requires 0 <= k < |alarms| => Button(Label(alarms[k]), |alarms| - 1))
  }

  /** As written, no button opens any alarm but the last. */
  lemma OnlyLastAlarmEditable(alarms: seq<AlarmData>, k: nat)
    requires 0 <= k < |alarms| - 1
    ensures forall b :: b in DisplayAsWritten(alarms) ==> b.target != k
  {
  }

  /** The buttons as intended: the button for entry `k` opens entry `k`. */
  function Display(alarms: seq<AlarmData>): (buttons: seq<Button>)
    ensures |buttons| == |alarms|
    ensures forall k :: 0 <= k < |alarms| ==> buttons[k] == Button(Label(alarms[k]), k)
  {
    seq(|alarms|, k requires 0 <= k < |alarms| => Button(Label(alarms[k]), k))
  }

  /** As intended, every entry is opened by exactly one button, the one labelled with it. */
  lemma EveryAlarmEditable(alarms: seq<AlarmData>, k: nat)
    requires k < |alarms|
    ensures exists b :: b in Display(alarms) && b.target == k && b.caption == Label(alarms[k])
    ensures forall m :: 0 <= m < |alarms| && Display(alarms)[m].target == k ==> m == k
  {
    assert Display(alarms)[k] in Display(alarms);
  }
}
