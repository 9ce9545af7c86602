/** The agent's report and the history point derived from it. */
module Samples {
  import opened Basics

  /** What an agent posts, without the fields the hub only displays. Byte counters stay below 2^63. */
  datatype Heartbeat = Heartbeat(
    cpuUsage: real, memUsage: real, netUp: nat, netDown: nat,
    netTotalUp: nat, netTotalDown: nat,
    latencyCT: real, latencyCU: real, latencyCM: real,
    lossCT: real, lossCU: real, lossCM: real)

  datatype Sample = Sample(
    t: int, cpu: real, mem: real, up: nat, down: nat,
    latCT: real, latCU: real, latCM: real, lossCT: real, lossCU: real, lossCM: real)

  function SampleFrom(hb: Heartbeat, t: int): Sample {
    Sample(t, hb.cpuUsage, hb.memUsage, hb.netUp, hb.netDown,
           hb.latencyCT, hb.latencyCU, hb.latencyCM, hb.lossCT, hb.lossCU, hb.lossCM)
  }

  /** sm is the point of hb at second t, field by field. */
  predicate Records(sm: Sample, hb: Heartbeat, t: int) {
    && sm.t == t && sm.cpu == hb.cpuUsage && sm.mem == hb.memUsage
    && sm.up == hb.netUp && sm.down == hb.netDown
    && sm.latCT == hb.latencyCT && sm.latCU == hb.latencyCU && sm.latCM == hb.latencyCM
    && sm.lossCT == hb.lossCT && sm.lossCU == hb.lossCU && sm.lossCM == hb.lossCM
  }
}
