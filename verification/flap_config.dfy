/**
 * Flap damping configuration (lib/flap-damping/index.js).
 *
 * Every option falls back to its default through JavaScript's `||`, so an
 * option explicitly set to zero is replaced by the default just like a
 * missing one.
 */
module FlapConfig {
  import opened Wrappers

  /** `opt || d` for a numeric option: zero is falsy and yields the default. */
  function OrDefault(opt: Option<real>, d: real): (r: real)
    ensures opt.Some? && opt.value != 0.0 ==> r == opt.value
    ensures opt.None? || opt.value == 0.0 ==> r == d
  {
    if opt.Some? && opt.value != 0.0 then opt.value else d
  }

  /** `opt || d` for an integer option. */
  function OrDefaultInt(opt: Option<int>, d: int): (r: int)
    ensures opt.Some? && opt.value != 0 ==> r == opt.value
    ensures opt.None? || opt.value == 0 ==> r == d
  {
    if opt.Some? && opt.value != 0 then opt.value else d
  }

  /** The damping options a ringpop instance is constructed with; None is an absent option. */
  datatype Opts = Opts(
    dampPenalty: Option<real>,
    dampScoreInitial: Option<real>,
    dampScoreMax: Option<real>,
    dampScoreMin: Option<real>,
    halfLife: Option<real>,
    reuseLimit: Option<real>,
    suppressDuration: Option<real>,
    suppressLimit: Option<real>,
    dampReqFanoutSize: Option<int>,
    dampReqTimeout: Option<int>,
    dampReqValue: Option<int>)

  datatype ScoringConfig = ScoringConfig(
    dampPenalty: real,
    dampScoreInitial: real,
    dampScoreMax: real,
    dampScoreMin: real,
    halfLife: real,
    reuseLimit: real,
    suppressDuration: real,
    suppressLimit: real)

  datatype SubprotocolConfig = SubprotocolConfig(
    dampReqFanoutSize: int,
    dampReqTimeout: int,
    dampReqValue: int)

  /** optsToScoringConfig. */
  function ToScoringConfig(o: Opts): (c: ScoringConfig)
    ensures c.dampPenalty == OrDefault(o.dampPenalty, 500.0)
    ensures c.dampScoreInitial == OrDefault(o.dampScoreInitial, 0.0)
    ensures c.dampScoreMax == OrDefault(o.dampScoreMax, 10000.0)
    ensures c.dampScoreMin == OrDefault(o.dampScoreMin, 0.0)
    ensures c.halfLife == OrDefault(o.halfLife, 1800.0)
    ensures c.reuseLimit == OrDefault(o.reuseLimit, 2500.0)
    ensures c.suppressDuration == OrDefault(o.suppressDuration, 3600000.0)
    ensures c.suppressLimit == OrDefault(o.suppressLimit, 5000.0)
  {
    ScoringConfig(
      OrDefault(o.dampPenalty, 500.0),
      OrDefault(o.dampScoreInitial, 0.0),
      OrDefault(o.dampScoreMax, 10000.0),
      OrDefault(o.dampScoreMin, 0.0),
      OrDefault(o.halfLife, 1800.0),
      OrDefault(o.reuseLimit, 2500.0),
      OrDefault(o.suppressDuration, 60.0 * 60.0 * 1000.0),
      OrDefault(o.suppressLimit, 5000.0))
  }

  /** optsToSubprotocolConfig. */
  function ToSubprotocolConfig(o: Opts): (c: SubprotocolConfig)
    ensures c.dampReqFanoutSize == OrDefaultInt(o.dampReqFanoutSize, 3)
    ensures c.dampReqTimeout == OrDefaultInt(o.dampReqTimeout, 1000)
    ensures c.dampReqValue == OrDefaultInt(o.dampReqValue, 1)
  {
    SubprotocolConfig(
      OrDefaultInt(o.dampReqFanoutSize, 3),
      OrDefaultInt(o.dampReqTimeout, 1000),
      OrDefaultInt(o.dampReqValue, 1))
  }

  /** No options at all. */
  function NoOpts(): Opts
  {
    Opts(None, None, None, None, None, None, None, None, None, None, None)
  }

  /**
   * The defaults: penalty 500, initial 0, maximum 10000, minimum 0, half
   * life 1800 s, reuse limit 2500, suppression for an hour and suppress
   * limit 5000; damp-reqs go to 3 members with a 1 s timeout and need 1
   * confirmation.
   */
  lemma Defaults()
    ensures ToScoringConfig(NoOpts()) == ScoringConfig(500.0, 0.0, 10000.0, 0.0, 1800.0, 2500.0, 3600000.0, 5000.0)
    ensures ToSubprotocolConfig(NoOpts()) == SubprotocolConfig(3, 1000, 1)
  {
  }

  /** An option explicitly set to zero is indistinguishable from a missing one. */
  lemma ZeroIsMissing(o: Opts)
    ensures ToScoringConfig(o.(dampPenalty := Some(0.0), suppressLimit := Some(0.0)))
         == ToScoringConfig(o.(dampPenalty := None, suppressLimit := None))
    ensures ToSubprotocolConfig(o.(dampReqFanoutSize := Some(0), dampReqValue := Some(0)))
         == ToSubprotocolConfig(o.(dampReqFanoutSize := None, dampReqValue := None))
  {
  }
}
