/**
 The state of the `Home` page: the alert list that its three handlers
 replace, the job list that nothing replaces, and the statistics row
 computed from both on every render.
 */
module Store {
  import opened Alerts

  /** The two computed cards of the statistics row. */
  datatype Statistics = Statistics(activeAlerts: nat, newMatches: nat)

  class AlertStore {
    var alerts: seq<JobAlert>
    var jobs: seq<Job>

    /** The page's initial state. */
    constructor ()
      ensures alerts == SeedAlerts && jobs == SeedJobs
      ensures UniqueIds(alerts)
    {
      alerts := SeedAlerts;
      jobs := SeedJobs;
      SeedIdsUnique();
    }

    /** `handleCreateAlert`, with the new alert's id supplied by the caller:
        a draft whose title or keywords is empty is ignored, any other is
        turned into an active alert appended at the end. */
    method CreateAlert(id: string, draft: Draft)
      modifies this`alerts
      ensures alerts == Create(old(alerts), id, draft)
      ensures !IsAcceptable(draft) ==> alerts == old(alerts)
      ensures IsAcceptable(draft) ==> alerts == old(alerts) + [NewAlert(id, draft)]
      ensures UniqueIds(old(alerts)) && id !in Ids(old(alerts)) ==> UniqueIds(alerts)
      ensures jobs == old(jobs)
    {
      if UniqueIds(alerts) && id !in Ids(alerts) {
        CreateKeepsUniqueIds(alerts, id, draft);
      }
      if !IsAcceptable(draft) {
        return;
      }
      alerts := alerts + [NewAlert(id, draft)];
    }

    /** `toggleAlert`: flips `active` on every alert with the id. */
    method ToggleAlert(id: string)
      modifies this`alerts
      ensures alerts == Toggle(old(alerts), id)
      ensures Ids(alerts) == Ids(old(alerts))
      ensures id !in Ids(old(alerts)) ==> alerts == old(alerts)
      ensures UniqueIds(old(alerts)) ==> UniqueIds(alerts)
      ensures jobs == old(jobs)
    {
      ToggleKeepsIds(alerts, id);
      if id !in Ids(alerts) {
        ToggleAbsent(alerts, id);
      }
      if UniqueIds(alerts) {
        ToggleKeepsUniqueIds(alerts, id);
      }
      alerts := Toggle(alerts, id);
    }

    /** `deleteAlert`: removes every alert with the id. */
    method DeleteAlert(id: string)
      modifies this`alerts
      ensures alerts == Delete(old(alerts), id)
      ensures id !in Ids(alerts)
      ensures id !in Ids(old(alerts)) ==> alerts == old(alerts)
      ensures UniqueIds(old(alerts)) ==> UniqueIds(alerts)
      ensures jobs == old(jobs)
    {
      DeleteRemovesId(alerts, id);
      if id !in Ids(alerts) {
        DeleteAbsent(alerts, id);
      }
      if UniqueIds(alerts) {
        DeleteKeepsUniqueIds(alerts, id);
      }
      alerts := Delete(alerts, id);
    }

    /** The statistics row: the number of alerts whose `active` flag is
        set, which never exceeds the number of alerts, and the number of
        job listings. */
    function Stats(): (s: Statistics)
      reads this
      ensures s.activeAlerts == |ActivePositions(alerts)| <= |alerts|
      ensures s.newMatches == |jobs|
    {
      ActiveCountCountsActive(alerts);
      Statistics(ActiveCount(alerts), |jobs|)
    }
  }
}
