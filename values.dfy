/** Python values as the scheduler sees them: task dictionaries, schedule
    objects and the JSON-like values stored in the change logs and the
    task table. */
module Values {

  /** The exceptions the modelled code raises or lets escape. */
  datatype Error =
    | KeyError            // missing key, non-string `task`, `del` of an absent entry
    | TypeError           // unsupported schedule in (de)serialization
    | IOError             // a backend store that cannot be opened or locked
    | IndexError          // a change-file line with too few fields
    | ValueError          // unpacking an operation that is not a triple
    | AttributeError      // `.encode()` on a task name that is not a string
    | UnicodeDecodeError  // a change-file name that is not UTF-8
    | UnpicklingError     // a change-file payload that does not unpickle
    | IntegrityError      // a NOT NULL column left null at commit
    | InterfaceError      // a query parameter the database driver cannot bind

  datatype Result<T> = Ok(value: T) | Err(error: Error)

  datatype Option<T> = None | Some(value: T)

  /** A Python object. `Every` is `celery.schedules.schedule` (its
      `run_every`), `Crontab` keeps the five original field values,
      `Solar` the event and the two coordinates; `Other` stands for any
      other object. Dictionaries have string keys. Floats and
      `datetime.timedelta` are not part of the model. */
  datatype Value =
    | Null
    | Bool(b: bool)
    | Int(i: int)
    | Str(s: string)
    | List(items: seq<Value>)
    | Dict(fields: map<string, Value>)
    | Every(runEvery: Value)
    | Crontab(minute: Value, hour: Value, dayOfWeek: Value, dayOfMonth: Value, monthOfYear: Value)
    | Solar(event: Value, lat: Value, lon: Value)
    | Other(tag: string)

  /** Python truthiness over the modelled values: `None`, `False`, `0`
      and the empty string, list and dict are false; the others are
      true (`Other` stands for a truthy object). */
  predicate Truthy(v: Value) {
    match v
    case Null => false
    case Bool(b) => b
    case Int(i) => i != 0
    case Str(s) => s != ""
    case List(items) => items != []
    case Dict(fields) => fields != map[]
    case _ => true
  }

  /** Of the modelled values, the ones Python treats as false are
      exactly `None`, `False`, `0` and the empty string, list and dict. */
  lemma FalsyValues(v: Value)
    ensures !Truthy(v) <==> v in {Null, Bool(false), Int(0), Str(""), List([]), Dict(map[])}
  {
  }

  /** Whether `hash(v)` succeeds, so that `v` can be a dict key: lists
      and dicts cannot; the other modelled values are taken to be
      hashable. */
  predicate Hashable(v: Value) {
    !v.List? && !v.Dict?
  }

  /** `isinstance(v, numbers.Number)`; a `bool` is a number in Python. */
  predicate IsNumber(v: Value) {
    v.Int? || v.Bool?
  }

  /** `d.get(key, default)`. */
  function GetOr(d: map<string, Value>, key: string, default: Value): Value {
    if key in d then d[key] else default
  }

  /** An octet of a byte string. */
  newtype byte = x: int | 0 <= x < 256

  /** The empty list and the empty dictionary. */
  const EmptyList: Value := List([])
  const EmptyDict: Value := Dict(map[])
}
