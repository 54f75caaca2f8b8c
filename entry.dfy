/** One credential record and the mutations it performs on itself. */
module Entry {
  import opened Outcomes
  import opened Timing

  class PasswordEntry {
    var id: int
    var name: string
    var username: string
    var password: string
    var url: string
    var notes: string
    var tags: seq<string>
    var created: Timestamp
    var modified: Timestamp
    /** (when the password was replaced, the password it replaced), oldest first */
    var passwordHistory: seq<(Timestamp, string)>
    var nextExpiration: Timestamp
    var expirationInterval: int
    var expirationIntervalUnit: string
    var resetScript: string

    /**
     * A new record with the given text fields; every other field takes its
     * default: no id yet (-1), no history, the policy disabled (-1 days) and
     * so the far-future expiration, created and modified at `now`.
     */
    constructor (name: string, username: string, password: string, url: string,
                 notes: string, tags: seq<string>, resetScript: string, now: Timestamp)
      ensures this.id == -1
      ensures this.name == name && this.username == username && this.password == password
      ensures this.url == url && this.notes == notes && this.tags == tags
      ensures this.resetScript == resetScript
      ensures this.created == now && this.modified == now
      ensures this.passwordHistory == []
      ensures this.expirationInterval == -1 && this.expirationIntervalUnit == "days"
      ensures this.nextExpiration == FAR_FUTURE
    {
      this.id := -1;
      this.name := name;
      this.username := username;
      this.password := password;
      this.url := url;
      this.notes := notes;
      this.tags := tags;
      this.created := now;
      this.modified := now;
      this.passwordHistory := [];
      this.nextExpiration := FAR_FUTURE;
      this.expirationInterval := -1;
      this.expirationIntervalUnit := "days";
      this.resetScript := resetScript;
    }

    /** The stored expiration agrees with the policy and the last modification. */
    ghost predicate ExpirationConsistent(cal: Calendar)
      reads this
    {
      nextExpiration == NextExpiration(cal, modified, expirationInterval, expirationIntervalUnit)
    }

    /** Between the two states only `modified` changed, and it is now `now`. */
    twostate predicate TouchedAt(now: Timestamp)
      reads this
    {
      && modified == now
      && id == old(id) && name == old(name) && username == old(username)
      && password == old(password) && url == old(url) && notes == old(notes)
      && tags == old(tags) && created == old(created)
      && passwordHistory == old(passwordHistory) && nextExpiration == old(nextExpiration)
      && expirationInterval == old(expirationInterval)
      && expirationIntervalUnit == old(expirationIntervalUnit) && resetScript == old(resetScript)
    }

    /** Recomputes `nextExpiration` from the policy and `modified`. */
    method SetNextExpiration(cal: Calendar)
      modifies this`nextExpiration
      ensures ExpirationConsistent(cal)
      ensures expirationInterval <= 0 ==> nextExpiration == FAR_FUTURE
      ensures expirationInterval > 0 ==>
        nextExpiration == cal.floorDay(cal.shift(modified, expirationIntervalUnit, expirationInterval))
    {
      if expirationInterval > 0 {
        var unit := expirationIntervalUnit;
        var interval := expirationInterval;
        nextExpiration := cal.shift(modified, unit, interval);
        nextExpiration := cal.floorDay(nextExpiration);
      } else {
        nextExpiration := FAR_FUTURE;
      }
    }

    /**
     * Rotates the password: the old one is appended to the history with the
     * time of the change, and the expiration is recomputed from that time.
     */
    method SetPassword(newPassword: string, now: Timestamp, cal: Calendar)
      modifies this`passwordHistory, this`modified, this`password, this`nextExpiration
      ensures passwordHistory == old(passwordHistory) + [(now, old(password))]
      ensures password == newPassword && modified == now
      ensures ExpirationConsistent(cal)
    {
      passwordHistory := passwordHistory + [(now, password)];
      modified := now;
      password := newPassword;
      SetNextExpiration(cal);
    }

    /**
     * Stores a new recurrence policy. A unit outside years, months, weeks
     * and days is refused before anything changes.
     */
    method SetExpirationInterval(interval: int, unit: string, now: Timestamp, cal: Calendar)
      returns (r: Outcome)
      modifies this`expirationInterval, this`expirationIntervalUnit, this`modified, this`nextExpiration
      ensures r == (if IsUnit(unit) then Pass else Fail(InvalidUnit(unit)))
      ensures !IsUnit(unit) ==> unchanged(this)
      ensures IsUnit(unit) ==>
        && expirationInterval == interval && expirationIntervalUnit == unit && modified == now
        && ExpirationConsistent(cal)
        && (interval > 0 ==> nextExpiration == cal.floorDay(cal.shift(now, unit, interval)))
        && (interval <= 0 ==> nextExpiration == FAR_FUTURE)
    {
      if !IsUnit(unit) {
        return Fail(InvalidUnit(unit));
      }
      expirationInterval := interval;
      expirationIntervalUnit := unit;
      modified := now;
      SetNextExpiration(cal);
      r := Pass;
    }
  }
}
