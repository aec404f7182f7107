/** MediaController and MediaSession of libmedia, and the network resources they share. */
module MediaSessions {
  import opened Options
  import opened PortAllocation

  class NetworkRes {
    const port: int
    var busy: bool
    var owner: MediaSession?

    constructor (port: int)
      ensures this.port == port && !busy && owner == null
    {
      this.port, busy, owner := port, false, null;
    }

    method SetBusy(val: bool)
      modifies this`busy
      ensures busy == val
    {
      busy := val;
    }

    method SetOwner(o: MediaSession?)
      modifies this`owner
      ensures owner == o
    {
      owner := o;
    }
  }

  class MediaSession {
    const mySessionId: int
    const myLocalRes: NetworkRes

    /** Claims its resource. */
    constructor (sessionId: int, localRes: NetworkRes)
      modifies localRes
      ensures mySessionId == sessionId && myLocalRes == localRes
      ensures localRes.busy && localRes.owner == this
    {
      mySessionId, myLocalRes := sessionId, localRes;
      new;
      localRes.SetBusy(true);
      localRes.SetOwner(this);
    }

    method TearDown() returns (done: bool)
      modifies myLocalRes`busy
      ensures done && !myLocalRes.busy
    {
      myLocalRes.SetBusy(false);
      return true;
    }

    /** The destructor, which tears down once more. */
    method Destroy()
      modifies myLocalRes
      ensures !myLocalRes.busy && myLocalRes.owner == null
    {
      var _ := TearDown();
      myLocalRes.SetOwner(null);
    }
  }

  /** The ports of resources, and those of sessions by their ids: a session keeps its
      resource and a resource its port. */
  ghost function PortsOf(list: seq<NetworkRes>): (ports: seq<int>)
    ensures |ports| == |list| && forall i :: 0 <= i < |list| ==> ports[i] == list[i].port
  {
    seq(|list|, i requires 0 <= i < |list| => list[i].port)
  }

  ghost function HeldBy(sessions: map<int, MediaSession>): (held: map<int, int>)
    ensures held.Keys == sessions.Keys && forall id :: id in sessions ==> held[id] == sessions[id].myLocalRes.port
  {
    map id | id in sessions :: sessions[id].myLocalRes.port
  }

  lemma {:induction false} NothingYet()
    ensures PortsOf([]) == [] && HeldBy(map[]) == map[]
  {}

  lemma {:induction false} OneMorePort(list: seq<NetworkRes>, res: NetworkRes)
    ensures PortsOf(list + [res]) == PortsOf(list) + [res.port]
  {}

  /** Every second port of a range that the probe does not find taken. */
  predicate IsPort(p: int, minRtpPort: int, maxRtpPort: int, taken: set<int>) {
    minRtpPort <= p < maxRtpPort && (p - minRtpPort) % 2 == 0 && p !in taken
  }

  /** A place that the search for ports comes to. */
  predicate IsNext(i: int, minRtpPort: int) {
    minRtpPort <= i && (i - minRtpPort) % 2 == 0
  }

  lemma {:induction false} NextPort(i: int, minRtpPort: int, maxRtpPort: int, taken: set<int>)
    requires IsNext(i, minRtpPort) && i < maxRtpPort
    ensures IsNext(i + 2, minRtpPort)
    ensures forall p :: IsPort(p, minRtpPort, maxRtpPort, taken) && p < i + 2 <==>
      (IsPort(p, minRtpPort, maxRtpPort, taken) && p < i) || (p == i && i !in taken)
  {}

  lemma {:induction false} HeldWithout(sessions: map<int, MediaSession>, id: int)
    ensures HeldBy(sessions - {id}) == HeldBy(sessions) - {id}
    ensures id !in sessions ==> sessions - {id} == sessions
  {
    hide HeldBy;
  }

  lemma {:induction false} HeldWith(sessions: map<int, MediaSession>, id: int, s: MediaSession)
    ensures HeldBy(sessions[id := s]) == HeldBy(sessions)[id := s.myLocalRes.port]
  {
    hide HeldBy;
  }

  class MediaController {
    var myRollingSessionId: int
    var myNetworkResList: seq<NetworkRes>
    var myMediaSessionMap: map<int, MediaSession>

    ghost predicate Valid()
      reads this, myNetworkResList
    {
      && (forall i, j :: 0 <= i < j < |myNetworkResList| ==> myNetworkResList[i].port + 2 <= myNetworkResList[j].port)
      && (forall id :: id in myMediaSessionMap ==>
            && var ms := myMediaSessionMap[id];
            && ms.mySessionId == id < myRollingSessionId
            && ms.myLocalRes in myNetworkResList && ms.myLocalRes.busy && ms.myLocalRes.owner == ms)
      && (forall r :: r in myNetworkResList ==>
            if r.busy then
              r.owner != null && r.owner.mySessionId in myMediaSessionMap
              && myMediaSessionMap[r.owner.mySessionId] == r.owner && r.owner.myLocalRes == r
            else
              r.owner == null)
    }

    /** What the lists and the map stand for. */
    ghost function State(): Allocator
      reads this
    {
      Allocator(PortsOf(myNetworkResList), myRollingSessionId, HeldBy(myMediaSessionMap))
    }

    /** A resource is marked busy just when some session holds its port. */
    lemma {:induction false} BusyIsHeld(k: nat)
      requires Valid() && k < |myNetworkResList|
      ensures myNetworkResList[k].busy <==> State().IsHeld(myNetworkResList[k].port)
    {
      var r := myNetworkResList[k];
      assert r in myNetworkResList;
      if r.busy {
        assert State().held[r.owner.mySessionId] == r.port;
      }
    }

    lemma {:induction false} StateIsSafe()
      requires Valid()
      ensures State().Safe()
    {
      var h := State().held;
      forall a, b | a in h && b in h && a != b ensures h[a] != h[b] {
        var r, s := myMediaSessionMap[a].myLocalRes, myMediaSessionMap[b].myLocalRes;
        var i :| 0 <= i < |myNetworkResList| && myNetworkResList[i] == r;
        var j :| 0 <= j < |myNetworkResList| && myNetworkResList[j] == s;
        assert i != j;
      }
      forall id | id in h ensures h[id] in State().ports {
        var i :| 0 <= i < |myNetworkResList| && myNetworkResList[i] == myMediaSessionMap[id].myLocalRes;
        assert State().ports[i] == h[id];
      }
    }

    /** Every second port from minRtpPort on that the probe does not find taken. */
    constructor (minRtpPort: int, maxRtpPort: int, taken: set<int>)
      ensures Valid() && State().next == 1 && State().held == map[]
      ensures forall p :: p in State().ports <==> IsPort(p, minRtpPort, maxRtpPort, taken)
    {
      hide PortsOf, HeldBy;
      myRollingSessionId := 1;
      myMediaSessionMap := map[];
      myNetworkResList := [];
      new;
      NothingYet();
      var i := minRtpPort;
      while i < maxRtpPort
        invariant IsNext(i, minRtpPort)
        invariant myRollingSessionId == 1 && myMediaSessionMap == map[] && Valid()
        invariant forall r :: r in myNetworkResList ==> fresh(r) && r.port + 2 <= i
        invariant forall p :: p in PortsOf(myNetworkResList) <==> IsPort(p, minRtpPort, maxRtpPort, taken) && p < i
      {
        NextPort(i, minRtpPort, maxRtpPort, taken);
        if i in taken {
          // Busy, try the next.
        } else {
          var res := new NetworkRes(i);
          OneMorePort(myNetworkResList, res);
          myNetworkResList := myNetworkResList + [res];
        }
        i := i + 2;
      }
    }

    /** The first resource that is not busy, or the length of the list. */
    method FindFree(taken: set<int>) returns (k: nat)
      requires Valid()
      ensures k == State().FirstFree(taken) <= |myNetworkResList|
      ensures k < |myNetworkResList| ==> !myNetworkResList[k].busy && State().ports[k] == myNetworkResList[k].port
      ensures k < |myNetworkResList| ==> myNetworkResList[k].port !in taken
      ensures forall j :: 0 <= j < k ==> myNetworkResList[j].busy || myNetworkResList[j].port in taken
    {
      k := 0;
      while k < |myNetworkResList| && (myNetworkResList[k].busy || myNetworkResList[k].port in taken)
        invariant 0 <= k <= |myNetworkResList| == |State().ports|
        invariant State().FirstFree(taken) == State().FirstFree(taken, k)
        invariant forall j :: 0 <= j < k ==> myNetworkResList[j].busy || myNetworkResList[j].port in taken
      {
        BusyIsHeld(k);
        k := k + 1;
      }
      if k < |myNetworkResList| {
        BusyIsHeld(k);
      }
    }

    /** createSessionImpl; no id when no resource is free, where the original aborts. */
    method CreateSession(taken: set<int>) returns (id: Option<int>)
      requires Valid()
      modifies this, myNetworkResList
      ensures Valid() && (State(), id) == old(State()).Create(taken)
      ensures myNetworkResList == old(myNetworkResList)
      ensures id.None? <==> forall k :: 0 <= k < |myNetworkResList| ==>
        old(myNetworkResList[k].busy) || myNetworkResList[k].port in taken
      ensures id.Some? ==>
        && id.value !in old(myMediaSessionMap) && id.value in myMediaSessionMap
        && exists k :: 0 <= k < |myNetworkResList| && myMediaSessionMap[id.value].myLocalRes == myNetworkResList[k]
             && !old(myNetworkResList[k].busy) && myNetworkResList[k].port !in taken
             && forall j :: 0 <= j < k ==> old(myNetworkResList[j].busy) || myNetworkResList[j].port in taken
    {
      ghost var before := State();
      var sId := myRollingSessionId;
      var k := FindFree(taken);
      assert sId !in myMediaSessionMap;
      myRollingSessionId := myRollingSessionId + 1;
      assert Valid() && State() == before.(next := sId + 1);
      if k == |myNetworkResList| {
        return None;
      }
      Claim(sId, k);
      return Some(sId);
    }

    /** Makes the session that takes a resource. */
    method Claim(sId: int, k: nat)
      requires Valid() && k < |myNetworkResList| && !myNetworkResList[k].busy
      requires sId + 1 == myRollingSessionId && sId !in myMediaSessionMap
      modifies this`myMediaSessionMap, myNetworkResList
      ensures Valid()
      ensures State() == old(State()).(held := old(State()).held[sId := myNetworkResList[k].port])
      ensures sId in myMediaSessionMap && myMediaSessionMap[sId].myLocalRes == myNetworkResList[k]
    {
      hide HeldBy, PortsOf;
      var localRes := myNetworkResList[k];
      var mSession := new MediaSession(sId, localRes);
      HeldWith(myMediaSessionMap, sId, mSession);
      myMediaSessionMap := myMediaSessionMap[sId := mSession];
    }

    /** freeSession; the session object goes away with its entry in the map. */
    method FreeSession(sId: int)
      requires Valid()
      modifies this, myNetworkResList
      ensures Valid() && State() == old(State()).Free(sId)
      ensures myNetworkResList == old(myNetworkResList) && myMediaSessionMap == old(myMediaSessionMap) - {sId}
      ensures forall r :: r in myNetworkResList ==>
        (r.busy <==> old(r.busy) && !(sId in old(myMediaSessionMap) && old(myMediaSessionMap)[sId].myLocalRes == r))
    {
      hide HeldBy, PortsOf;
      HeldWithout(myMediaSessionMap, sId);
      if sId !in myMediaSessionMap {
        return;
      }
      var ms := myMediaSessionMap[sId];
      var done := ms.TearDown();
      if done {
        myMediaSessionMap := myMediaSessionMap - {sId};
        ms.Destroy();
      }
    }
  }
}
