/**
 * The key/value `settings` table of src/db.py and the PIN kept in it as a
 * one-way digest. The digest function (SHA-256 rendered as lower-case hex
 * in the original) is a parameter: only its being a function matters here.
 */
module Settings {
  import opened Optional
  import opened Ledger

  /** The only key the program defines: the PIN digest. */
  const PinKey: string := "pin_sha256"

  /** `get_setting`: the stored value, or None for a key never set. */
  function GetSetting(db: Db, key: string): (r: Option<string>)
    ensures r.None? <==> key !in db.settings
    ensures r.Some? ==> db.settings[key] == r.value
  {
    if key in db.settings then Some(db.settings[key]) else None
  }

  /** `set_setting` (`INSERT OR REPLACE`): the key now reads back as `value`,
      every other key reads as before, and the sessions are untouched. */
  function SetSetting(db: Db, key: string, value: string): (r: Db)
    ensures GetSetting(r, key) == Some(value)
    ensures forall k :: k != key ==> GetSetting(r, k) == GetSetting(db, k)
    ensures r.sessions == db.sessions && r.nextId == db.nextId
  {
    db.(settings := db.settings[key := value])
  }

  /** A fresh database has no settings, so in particular no PIN. */
  lemma EmptyHasNoSettings(key: string)
    ensures GetSetting(Empty, key) == None
  {
  }

  /** `set_pin`: store the digest of `pin` under PinKey. */
  function SetPin(db: Db, pin: string, hash: string -> string): (r: Db)
    ensures GetSetting(r, PinKey) == Some(hash(pin))
    ensures forall k :: k != PinKey ==> GetSetting(r, k) == GetSetting(db, k)
    ensures r.sessions == db.sessions && r.nextId == db.nextId
  {
    SetSetting(db, PinKey, hash(pin))
  }

  /** `verify_pin`: fails closed when no digest (or an empty one) is stored;
      otherwise succeeds exactly when the digest of `pin` matches. */
  function VerifyPin(db: Db, pin: string, hash: string -> string): (ok: bool)
    ensures GetSetting(db, PinKey).None? ==> !ok
    ensures GetSetting(db, PinKey) == Some("") ==> !ok
    ensures ok ==> GetSetting(db, PinKey) == Some(hash(pin))
    ensures GetSetting(db, PinKey).Some? && GetSetting(db, PinKey).value != "" ==>
      (ok <==> GetSetting(db, PinKey).value == hash(pin))
  {
    match GetSetting(db, PinKey)
    case None => false
    case Some(stored) => stored != "" && stored == hash(pin)
  }

  /** After `set_pin(p)`, `verify_pin(q)` accepts exactly the PINs with the
      same digest as `p`, `p` itself among them. A SHA-256 hex digest is
      never empty, which is all the requirement asks of `hash`. */
  lemma SetPinThenVerify(db: Db, p: string, q: string, hash: string -> string)
    requires hash(p) != ""
    ensures VerifyPin(SetPin(db, p, hash), q, hash) <==> hash(q) == hash(p)
    ensures VerifyPin(SetPin(db, p, hash), p, hash)
  {
  }
}
