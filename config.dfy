/**
 * The configuration layer of the cache (options.go): an options record
 * holding the logger, the capacity and the metrics sink, and the
 * functional options that each overwrite one field of it.
 *
 * The logger and the metrics sink are collaborators outside this model;
 * only their identity matters here, so each is an opaque handle.
 */
module Config {

  /** A logger handle; NoLog stands for the default no-op logger. */
  datatype Logger = NoLog | Logger(id: nat)

  /** A metrics sink handle; NoMetrics stands for the default no-op sink. */
  datatype Sink = NoMetrics | Sink(id: nat)

  /** The capacity a cache gets when no option sets one. */
  const DefaultMaxSize: nat := 1000

  /** The three values an options record holds. */
  datatype Settings = Settings(logger: Logger, maxsize: nat, metrics: Sink)

  /** The record NewCache starts from before applying any option. */
  const Defaults: Settings := Settings(NoLog, DefaultMaxSize, NoMetrics)

  /** One functional option; each variant overwrites exactly one field. */
  datatype Option =
    | LoggerOption(logger: Logger)
    | MaxSizeOption(size: nat)
    | MetricsOption(metrics: Sink)
  {
    /** The settings after this option is applied to `s`. */
    function Applied(s: Settings): (r: Settings)
      ensures r.logger == s.logger || LoggerOption?
      ensures r.maxsize == s.maxsize || MaxSizeOption?
      ensures r.metrics == s.metrics || MetricsOption?
    {
      match this
      case LoggerOption(l) => s.(logger := l)
      case MaxSizeOption(n) => s.(maxsize := n)
      case MetricsOption(m) => s.(metrics := m)
    }

    /** The option's `apply`: writes its one field of `opts` in place. */
    method Apply(opts: Options)
      modifies opts
      ensures opts.Current() == Applied(old(opts.Current()))
      ensures LoggerOption? ==>
        opts.logger == logger && opts.maxsize == old(opts.maxsize) && opts.metrics == old(opts.metrics)
      ensures MaxSizeOption? ==>
        opts.maxsize == size && opts.logger == old(opts.logger) && opts.metrics == old(opts.metrics)
      ensures MetricsOption? ==>
        opts.metrics == metrics && opts.logger == old(opts.logger) && opts.maxsize == old(opts.maxsize)
    {
      match this
      case LoggerOption(l) => opts.logger := l;
      case MaxSizeOption(n) => opts.maxsize := n;
      case MetricsOption(m) => opts.metrics := m;
    }
  }

  /** The mutable options record that NewCache fills in. */
  class Options {
    var logger: Logger
    var maxsize: nat
    var metrics: Sink

    /** The record as NewCache initialises it: no-op logger, capacity 1000, no-op sink. */
    constructor Default()
      ensures Current() == Defaults
    {
      logger, maxsize, metrics := NoLog, DefaultMaxSize, NoMetrics;
    }

    ghost function Current(): Settings
      reads this
    {
      Settings(logger, maxsize, metrics)
    }
  }

  /** WithLogger: an option that sets the logger and nothing else. */
  function WithLogger(logger: Logger): (o: Option)
    ensures forall s :: o.Applied(s) == s.(logger := logger)
  {
    LoggerOption(logger)
  }

  /** WithMaxSize: an option that sets the capacity and nothing else. */
  function WithMaxSize(size: nat): (o: Option)
    ensures forall s :: o.Applied(s) == s.(maxsize := size)
  {
    MaxSizeOption(size)
  }

  /** WithMetrics: an option that sets the metrics sink and nothing else. */
  function WithMetrics(metrics: Sink): (o: Option)
    ensures forall s :: o.Applied(s) == s.(metrics := metrics)
  {
    MetricsOption(metrics)
  }

  /** The settings after applying `os` to `s` from left to right. */
  function ApplyAll(s: Settings, os: seq<Option>): (r: Settings)
    ensures (forall j :: 0 <= j < |os| ==> !os[j].LoggerOption?) ==> r.logger == s.logger
    ensures (forall j :: 0 <= j < |os| ==> !os[j].MetricsOption?) ==> r.metrics == s.metrics
    decreases |os|
  {
    if os == [] then s else os[|os| - 1].Applied(ApplyAll(s, os[..|os| - 1]))
  }

  /** Options apply left to right, so the last WithMaxSize decides the capacity. */
  lemma {:induction false} LastMaxSizeWins(s: Settings, os: seq<Option>, i: nat)
    requires i < |os| && os[i].MaxSizeOption?
    requires forall j :: i < j < |os| ==> !os[j].MaxSizeOption?
    ensures ApplyAll(s, os).maxsize == os[i].size
    decreases |os|
  {
    if i < |os| - 1 {
      var front := os[..|os| - 1];
      assert front[i] == os[i];
      LastMaxSizeWins(s, front, i);
    }
  }

  /** Without any WithMaxSize option the capacity stays at the default 1000. */
  lemma {:induction false} DefaultMaxSizeKept(os: seq<Option>)
    requires forall j :: 0 <= j < |os| ==> !os[j].MaxSizeOption?
    ensures ApplyAll(Defaults, os).maxsize == DefaultMaxSize
    decreases |os|
  {
    if os != [] {
      DefaultMaxSizeKept(os[..|os| - 1]);
    }
  }
}
