/**
 The application loop: software timers with callbacks (Application.c) and the
 exchanges with the time server and the back end, which share one socket of the
 radio (Remote.c).  What the radio answers is up to the environment.
 */
module Application {
  import opened Integers
  import opened Timers

  const LT_SENSE_TICK: nat := 0
  const TEMP_SENSE_TICK: nat := 1
  const SCREEN_UPDATE_TICK: nat := 2
  const SCREEN_ON_TICK: nat := 3
  const SENSOR_DEBUG_TICK: nat := 4
  const REMOTE_SYNC_TICK: nat := 5
  const NTP_TIME_SYNC_TICK: nat := 6
  const WIFI_CHECK_STAT_TICK: nat := 7
  const WIFI_RECONNECT_TICK: nat := 8
  const TIMERS_COUNT: nat := 9

  const TIME_SYNC_RETRY_INTERVAL: nat := 30000
  const WIFI_RECONNECT_INTERVAL: nat := 15000
  const NTP_RESPONSE_WAIT_TIME: nat := 1500
  const BE_RESPONSE_WAIT_TIME: nat := 1000
  const WIFI_CONNECTION_TIMEOUT: nat := 8000

  /** The state of a client that is closed. */
  const CLOSED: nat := 0

  /** The intervals of `loadTimers`; the screen update timer has none. */
  function Interval(timer: nat): nat {
    match timer
    case 0 => 35
    case 1 => 1000
    case 3 => 20000
    case 4 => 2000
    case 5 => 5000
    case 6 => 3600000
    case 7 => 5000
    case 8 => WIFI_RECONNECT_INTERVAL
    case _ => 0
  }

  /** The reconnect timer when the connection may have been lost. */
  function Restarted(lost: bool, timer: int): int { if lost then WIFI_RECONNECT_INTERVAL else timer }

  /** Who opened the socket that `sock` names. */
  datatype Socket = NoSocket | Udp | Tcp

  /**
   What the clock and the radio answer during one step: the time; whether
   there is a socket for `UDP_begin`, and for `UDP_beginPacketIP`; whether a
   packet has come; whether there is a socket for the back end, and whether
   it connects; whether the radio is on the network; the state of the client;
   how many bytes have come, and whether the connection is still open.
   */
  datatype Radio = Radio(now: nat, udpSocket: bool, clientSocket: bool, packet: bool, tcpSocket: bool,
                         tcpConnects: bool, onNetwork: bool, clientState: nat, bytes: nat, open: bool) {
    /** A request to the time server can be sent. */
    predicate Sends() { udpSocket || clientSocket }

    /** The back end can be reached. */
    predicate Reaches() { onNetwork && tcpSocket && tcpConnects }
  }

  class App {
    const timers: array<int>
    var wifi_connected: bool
    var wifi_connect_count: nat
    var wifi_failed_connect_attempts: nat
    var once: bool
    var rtc_set: bool
    var waiting_on_NTP_response: bool
    var ntp_response_end_time: nat
    var waiting_on_BE_response: bool
    var BE_response_end_time: nat
    var received_data_from_BE: bool
    var wifi_connecting: bool
    var wifi_connecting_end_time: nat
    var sock: Socket
    /** How often `connectToWifi` has been called. */
    ghost var attempts: nat

    ghost predicate Valid()
      reads this, timers
    {
      && timers.Length == TIMERS_COUNT
      && (forall i | 0 <= i < TIMERS_COUNT :: timers[i] == STOPPED || timers[i] > 0)
      && SocketOwned() && ReconnectTimer() && (wifi_connecting ==> !wifi_connected)
    }

    /** At most one exchange is waiting, and an open socket is that exchange's. */
    ghost predicate SocketOwned()
      reads this
    {
      && !(waiting_on_NTP_response && waiting_on_BE_response)
      && (sock == Udp ==> waiting_on_NTP_response)
      && (sock == Tcp <==> waiting_on_BE_response)
    }

    /** `WiFiClient_status`: without a socket the client is closed. */
    function ClientStatus(r: Radio): nat
      reads this`sock
    {
      if sock == NoSocket then CLOSED else r.clientState
    }

    /** There is no connection any more, as far as a check can see. */
    predicate Lost(r: Radio)
      reads this`sock
    {
      !r.onNetwork || ClientStatus(r) == CLOSED
    }

    /** From the first connection on, the reconnect timer stands still exactly while there is a connection. */
    ghost predicate ReconnectTimer()
      requires timers.Length == TIMERS_COUNT
      reads this, timers
    {
      if once then
        && (wifi_connected <==> timers[WIFI_RECONNECT_TICK] == STOPPED)
        && timers[WIFI_RECONNECT_TICK] <= WIFI_RECONNECT_INTERVAL
      else !wifi_connected && timers[WIFI_RECONNECT_TICK] == STOPPED
    }

    /** The first connection has failed, and nothing is left that would try again. */
    ghost predicate GivenUp()
      reads this
    {
      !once && !wifi_connecting
    }

    /** `remoteInit` and `loadTimers`: the radio begins to connect, and the timers are loaded. */
    constructor (now: nat)
      ensures Valid() && fresh(timers) && wifi_connecting && !wifi_connected && !once && attempts == 1
      ensures wifi_connecting_end_time == now + WIFI_CONNECTION_TIMEOUT
      ensures !waiting_on_NTP_response && !waiting_on_BE_response && !rtc_set && sock == NoSocket
      ensures forall i | 0 <= i < TIMERS_COUNT ::
        timers[i] == if Interval(i) == 0 || i == WIFI_RECONNECT_TICK then STOPPED else Interval(i)
    {
      timers := new int[TIMERS_COUNT];
      wifi_connected, wifi_connect_count, wifi_failed_connect_attempts := false, 0, 0;
      once, rtc_set := false, false;
      waiting_on_NTP_response, ntp_response_end_time := false, 0;
      waiting_on_BE_response, BE_response_end_time, received_data_from_BE := false, 0, false;
      wifi_connecting, wifi_connecting_end_time := true, now + WIFI_CONNECTION_TIMEOUT;
      sock := NoSocket;
      attempts := 1;
      new;
      LoadTimers();
    }

    /** `loadTimers`: all stopped, then those loaded that have an interval, except the one for reconnecting. */
    method LoadTimers()
      requires timers.Length == TIMERS_COUNT
      modifies timers
      ensures forall i | 0 <= i < TIMERS_COUNT ::
        timers[i] == if Interval(i) == 0 || i == WIFI_RECONNECT_TICK then STOPPED else Interval(i)
    {
      var i := 0;
      while i < TIMERS_COUNT
        invariant 0 <= i <= TIMERS_COUNT && forall j | 0 <= j < i :: timers[j] == STOPPED
      {
        timers[i] := STOPPED;
        i := i + 1;
      }
      timers[LT_SENSE_TICK] := Interval(LT_SENSE_TICK);
      timers[TEMP_SENSE_TICK] := Interval(TEMP_SENSE_TICK);
      timers[SCREEN_ON_TICK] := Interval(SCREEN_ON_TICK);
      timers[SENSOR_DEBUG_TICK] := Interval(SENSOR_DEBUG_TICK);
      timers[REMOTE_SYNC_TICK] := Interval(REMOTE_SYNC_TICK);
      timers[NTP_TIME_SYNC_TICK] := Interval(NTP_TIME_SYNC_TICK);
      timers[WIFI_CHECK_STAT_TICK] := Interval(WIFI_CHECK_STAT_TICK);
    }

    // ----- the time server ----------------------------------------------------------------

    /** `sendNTPpacket`: an open socket is closed, whoever opened it. */
    method SendNTPpacket(r: Radio) returns (sent: bool)
      requires Valid() && !waiting_on_BE_response
      modifies this`sock, this`waiting_on_NTP_response, this`ntp_response_end_time
      ensures Valid() && sent == (r.udpSocket || r.clientSocket)
      ensures sent ==> waiting_on_NTP_response && sock == Udp && ntp_response_end_time == r.now + NTP_RESPONSE_WAIT_TIME
      ensures !sent ==> sock == NoSocket && unchanged(`waiting_on_NTP_response) && unchanged(`ntp_response_end_time)
    {
      if sock != NoSocket {
        sock := NoSocket;
      }
      if r.udpSocket {
        sock := Udp;
      }
      if sock == NoSocket && r.clientSocket {
        sock := Udp;
      }
      if sock == NoSocket {
        return false;
      }
      waiting_on_NTP_response := true;
      ntp_response_end_time := r.now + NTP_RESPONSE_WAIT_TIME;
      return true;
    }

    /** `getTime`: not while the back end is to answer. */
    method GetTime(r: Radio)
      requires Valid()
      modifies this`sock, this`waiting_on_NTP_response, this`ntp_response_end_time, timers
      ensures Valid()
      ensures var failed := !waiting_on_BE_response && !r.udpSocket && !r.clientSocket;
              var t := if failed then TIME_SYNC_RETRY_INTERVAL else old(timers[NTP_TIME_SYNC_TICK]);
              timers[..] == old(timers[..])[NTP_TIME_SYNC_TICK := t]
      ensures waiting_on_BE_response ==> unchanged(`sock) && unchanged(`ntp_response_end_time)
      ensures !waiting_on_BE_response && !r.udpSocket && !r.clientSocket ==>
        sock == NoSocket && unchanged(`ntp_response_end_time)
      ensures waiting_on_NTP_response <==>
        old(waiting_on_NTP_response) || (!waiting_on_BE_response && (r.udpSocket || r.clientSocket))
      ensures !waiting_on_BE_response && (r.udpSocket || r.clientSocket) ==>
        sock == Udp && ntp_response_end_time == r.now + NTP_RESPONSE_WAIT_TIME
    {
      if waiting_on_BE_response {
        return;
      }
      var sent := SendNTPpacket(r);
      if sent {
        return;
      }
      timers[NTP_TIME_SYNC_TICK] := TIME_SYNC_RETRY_INTERVAL;
    }

    /** `checkNtpResponse`: the wait ends with an answer or at its deadline. */
    method CheckNtpResponse(r: Radio)
      requires Valid()
      modifies this`sock, this`waiting_on_NTP_response, this`rtc_set, timers
      ensures Valid()
      ensures waiting_on_NTP_response <==> old(waiting_on_NTP_response) && !r.packet && r.now < ntp_response_end_time
      ensures old(waiting_on_NTP_response) && !waiting_on_NTP_response ==> sock == NoSocket
      ensures waiting_on_NTP_response == old(waiting_on_NTP_response) ==> unchanged(`sock) && unchanged(`rtc_set)
      ensures rtc_set <==> old(rtc_set) || (old(waiting_on_NTP_response) && r.packet)
      ensures var late := old(waiting_on_NTP_response) && !r.packet && r.now >= ntp_response_end_time;
              var t := if late then TIME_SYNC_RETRY_INTERVAL else old(timers[NTP_TIME_SYNC_TICK]);
              timers[..] == old(timers[..])[NTP_TIME_SYNC_TICK := t]
    {
      if !waiting_on_NTP_response {
        return;
      }
      if r.packet {
        waiting_on_NTP_response := false;
        sock := NoSocket;
        rtc_set := true;
      } else if r.now >= ntp_response_end_time {
        sock := NoSocket;
        waiting_on_NTP_response := false;
        timers[NTP_TIME_SYNC_TICK] := TIME_SYNC_RETRY_INTERVAL;
      }
    }

    // ----- the back end -------------------------------------------------------------------

    /** `remoteSync`: only while nothing is waiting, with the clock set and the radio on the network. */
    method RemoteSync(r: Radio)
      requires Valid()
      modifies this`sock, this`waiting_on_BE_response, this`BE_response_end_time, this`received_data_from_BE
      ensures Valid()
      ensures var may := !old(waiting_on_BE_response) && !waiting_on_NTP_response && rtc_set && r.onNetwork;
              && (waiting_on_BE_response <==> old(waiting_on_BE_response) || (may && r.tcpSocket && r.tcpConnects))
              && (!may ==> unchanged(`sock))
              && (waiting_on_BE_response == old(waiting_on_BE_response) ==> unchanged(`BE_response_end_time))
              && (may && waiting_on_BE_response ==>
                    BE_response_end_time == r.now + BE_RESPONSE_WAIT_TIME && !received_data_from_BE)
    {
      if waiting_on_BE_response || waiting_on_NTP_response || !rtc_set || !r.onNetwork {
        return;
      }
      var connected := ConnectSSLHost(r);
      if !connected {
        return;
      }
      BE_response_end_time := r.now + BE_RESPONSE_WAIT_TIME;
      waiting_on_BE_response := true;
      received_data_from_BE := false;
    }

    /** `WiFiClient_connectSSLHost`: an open socket is closed, whoever opened it. */
    method ConnectSSLHost(r: Radio) returns (connected: bool)
      modifies this`sock
      ensures connected == (r.tcpSocket && r.tcpConnects) && sock == if connected then Tcp else NoSocket
    {
      if sock != NoSocket {
        sock := NoSocket;
      }
      if !r.tcpSocket {
        return false;
      }
      sock := Tcp;
      if !r.tcpConnects {
        sock := NoSocket;
        return false;
      }
      return true;
    }

    /** `checkBEResponse`: the wait ends at its deadline, which every byte moves, or when the server closes. */
    method CheckBEResponse(r: Radio)
      requires Valid()
      modifies this`sock, this`waiting_on_BE_response, this`BE_response_end_time, this`received_data_from_BE
      ensures Valid()
      ensures waiting_on_BE_response <==> old(waiting_on_BE_response) && r.now < old(BE_response_end_time) && r.open
      ensures old(waiting_on_BE_response) && !waiting_on_BE_response ==> sock == NoSocket
      ensures waiting_on_BE_response == old(waiting_on_BE_response) ==> unchanged(`sock)
      ensures waiting_on_BE_response ==>
        BE_response_end_time == if r.bytes > 0 then r.now + BE_RESPONSE_WAIT_TIME else old(BE_response_end_time)
      ensures waiting_on_BE_response ==> (received_data_from_BE <==> old(received_data_from_BE) || r.bytes > 0)
    {
      if !waiting_on_BE_response {
        return;
      }
      if r.now >= BE_response_end_time {
        waiting_on_BE_response := false;
        sock := NoSocket;
        return;
      }
      var left := r.bytes;
      while left > 0
        invariant 0 <= left <= r.bytes
        invariant BE_response_end_time
               == if left < r.bytes then r.now + BE_RESPONSE_WAIT_TIME else old(BE_response_end_time)
        invariant received_data_from_BE <==> old(received_data_from_BE) || left < r.bytes
        invariant unchanged(`sock) && unchanged(`waiting_on_BE_response)
      {
        BE_response_end_time := r.now + BE_RESPONSE_WAIT_TIME;
        received_data_from_BE := true;
        left := left - 1;
      }
      if !r.open {
        sock := NoSocket;
        waiting_on_BE_response := false;
      }
    }

    // ----- the connection -----------------------------------------------------------------

    /** `connectToWifi`. */
    method ConnectToWifi(r: Radio)
      requires !wifi_connected
      modifies this`wifi_connecting, this`wifi_connecting_end_time, this`attempts
      ensures wifi_connecting && wifi_connecting_end_time == r.now + WIFI_CONNECTION_TIMEOUT
      ensures attempts == old(attempts) + 1
    {
      wifi_connecting := true;
      wifi_connecting_end_time := r.now + WIFI_CONNECTION_TIMEOUT;
      attempts := attempts + 1;
    }

    /** `setWifiConnectionState`. */
    method SetWifiConnectionState(connected: bool, r: Radio)
      requires Valid() && !wifi_connecting
      modifies this, timers
      ensures Valid() && wifi_connected == connected && once == (old(once) || connected)
      ensures unchanged(`waiting_on_BE_response) && unchanged(`rtc_set)
      ensures old(once) || !connected ==> unchanged(`waiting_on_NTP_response) && unchanged(`sock)
      ensures unchanged(`BE_response_end_time)
      ensures old(once) || !connected ==> unchanged(`ntp_response_end_time)
      ensures !old(once) && connected && !waiting_on_BE_response && r.Sends() ==>
        && waiting_on_NTP_response && ntp_response_end_time == r.now + NTP_RESPONSE_WAIT_TIME
        && timers[NTP_TIME_SYNC_TICK] == old(timers[NTP_TIME_SYNC_TICK])
      ensures connected || !old(wifi_connected) ==>
        attempts == old(attempts) && unchanged(`wifi_connecting) && unchanged(`wifi_connecting_end_time)
      ensures !connected && old(wifi_connected) ==>
        && timers[WIFI_RECONNECT_TICK] == WIFI_RECONNECT_INTERVAL && attempts == old(attempts) + 1
        && wifi_connecting && wifi_connecting_end_time == r.now + WIFI_CONNECTION_TIMEOUT
      ensures connected == old(wifi_connected) ==> timers[..] == old(timers[..])
      ensures forall i | 0 <= i < NTP_TIME_SYNC_TICK || i == WIFI_CHECK_STAT_TICK :: timers[i] == old(timers[i])
      ensures old(once) || !connected ==> timers[NTP_TIME_SYNC_TICK] == old(timers[NTP_TIME_SYNC_TICK])
    {
      if connected && !wifi_connected {
        wifi_connected := true;
        wifi_connect_count := (wifi_connect_count + 1) % 0x1_0000;
        timers[WIFI_RECONNECT_TICK] := STOPPED;
        if !once {
          once := true;
          GetTime(r);
        }
      }
      if !connected && wifi_connected {
        wifi_connected := false;
        wifi_failed_connect_attempts := 1;
        timers[WIFI_RECONNECT_TICK] := WIFI_RECONNECT_INTERVAL;
        ConnectToWifi(r);
      }
    }

    /** `checkWifiConnecting`: the attempt ends with a connection or at its deadline. */
    method CheckWifiConnecting(r: Radio)
      requires Valid()
      modifies this, timers
      ensures Valid() && attempts == old(attempts) && unchanged(`wifi_connecting_end_time)
      ensures wifi_connecting <==> old(wifi_connecting) && !r.onNetwork && r.now < wifi_connecting_end_time
      ensures wifi_connected <==> old(wifi_connected) || (old(wifi_connecting) && r.onNetwork)
      ensures once <==> old(once) || (old(wifi_connecting) && r.onNetwork)
      ensures unchanged(`waiting_on_BE_response) && unchanged(`BE_response_end_time) && unchanged(`rtc_set)
      ensures once == old(once) ==>
        && unchanged(`waiting_on_NTP_response) && unchanged(`ntp_response_end_time)
        && timers[NTP_TIME_SYNC_TICK] == old(timers[NTP_TIME_SYNC_TICK])
      ensures !old(once) && once && !waiting_on_BE_response && r.Sends() ==>
        && waiting_on_NTP_response && ntp_response_end_time == r.now + NTP_RESPONSE_WAIT_TIME
        && timers[NTP_TIME_SYNC_TICK] == old(timers[NTP_TIME_SYNC_TICK])
      ensures !(old(wifi_connecting) && r.onNetwork) ==> timers[..] == old(timers[..])
      ensures forall i | 0 <= i < NTP_TIME_SYNC_TICK || i == WIFI_CHECK_STAT_TICK :: timers[i] == old(timers[i])
    {
      if !wifi_connecting {
        return;
      }
      if !r.onNetwork && r.now < wifi_connecting_end_time {
        return;
      }
      wifi_connecting := false;
      SetWifiConnectionState(r.onNetwork, r);
    }

    /** `wifiCheckConnectionStatus`. */
    method WifiCheckConnectionStatus(r: Radio)
      requires Valid()
      modifies this, timers
      ensures Valid() && once == old(once)
      ensures unchanged(`waiting_on_NTP_response) && unchanged(`waiting_on_BE_response) && unchanged(`rtc_set)
      ensures unchanged(`sock) && unchanged(`ntp_response_end_time) && unchanged(`BE_response_end_time)
      ensures old(!wifi_connected) || !Lost(r) ==>
        && attempts == old(attempts) && unchanged(`wifi_connecting) && unchanged(`wifi_connecting_end_time)
        && timers[..] == old(timers[..]) && unchanged(`wifi_connected)
      ensures old(wifi_connected) && Lost(r) ==>
        && !wifi_connected && wifi_connecting && attempts == old(attempts) + 1
        && wifi_connecting_end_time == r.now + WIFI_CONNECTION_TIMEOUT
        && timers[..] == old(timers[..])[WIFI_RECONNECT_TICK := WIFI_RECONNECT_INTERVAL]
    {
      if wifi_connected {
        SetWifiConnectionState(r.onNetwork && ClientStatus(r) != CLOSED, r);
      }
    }

    /** `wifiReconnectCallback`. */
    method WifiReconnectCallback(r: Radio)
      requires Valid() && !wifi_connected
      modifies this`wifi_failed_connect_attempts, this`wifi_connecting, this`wifi_connecting_end_time, this`attempts
      ensures Valid() && wifi_connecting && attempts == old(attempts) + 1
      ensures wifi_connecting_end_time == r.now + WIFI_CONNECTION_TIMEOUT
    {
      wifi_failed_connect_attempts := (wifi_failed_connect_attempts + 1) % 0x1_0000;
      ConnectToWifi(r);
    }

    /** `runRemote`. */
    method RunRemote(ntp: Radio, backEnd: Radio, wifi: Radio)
      requires Valid()
      modifies this, timers
      ensures Valid() && attempts == old(attempts) && unchanged(`wifi_connecting_end_time)
      ensures once <==> old(once) || (old(wifi_connecting) && wifi.onNetwork)
      ensures waiting_on_BE_response <==>
        old(waiting_on_BE_response) && backEnd.now < old(BE_response_end_time) && backEnd.open
      ensures waiting_on_BE_response ==>
        BE_response_end_time
        == if backEnd.bytes > 0 then backEnd.now + BE_RESPONSE_WAIT_TIME else old(BE_response_end_time)
      ensures rtc_set <==> old(rtc_set) || (old(waiting_on_NTP_response) && ntp.packet)
      ensures once == old(once) ==>
        && (waiting_on_NTP_response
            <==> old(waiting_on_NTP_response) && !ntp.packet && ntp.now < old(ntp_response_end_time))
        && unchanged(`ntp_response_end_time)
      ensures once == old(once) && (waiting_on_NTP_response || !old(waiting_on_NTP_response)) ==>
        timers[NTP_TIME_SYNC_TICK] == old(timers[NTP_TIME_SYNC_TICK])
      ensures !old(once) && once && !waiting_on_BE_response && wifi.Sends() && !old(waiting_on_NTP_response) ==>
        && waiting_on_NTP_response && ntp_response_end_time == wifi.now + NTP_RESPONSE_WAIT_TIME
        && timers[NTP_TIME_SYNC_TICK] == old(timers[NTP_TIME_SYNC_TICK])
      ensures wifi_connecting <==> old(wifi_connecting) && !wifi.onNetwork && wifi.now < wifi_connecting_end_time
      ensures wifi_connected <==> old(wifi_connected) || (old(wifi_connecting) && wifi.onNetwork)
      ensures !(old(wifi_connecting) && wifi.onNetwork) ==>
        timers[WIFI_RECONNECT_TICK] == old(timers[WIFI_RECONNECT_TICK])
      ensures forall i | 0 <= i < NTP_TIME_SYNC_TICK || i == WIFI_CHECK_STAT_TICK :: timers[i] == old(timers[i])
    {
      CheckNtpResponse(ntp);
      CheckBEResponse(backEnd);
      CheckWifiConnecting(wifi);
    }

    // ----- the timers ---------------------------------------------------------------------

    /** The callbacks; those that concern the sensors and the screen do nothing here but reload their own timer. */
    method Callback(i: nat, r: Radio)
      requires Valid() && i < TIMERS_COUNT && (i == WIFI_RECONNECT_TICK ==> once && !wifi_connected)
      modifies this, timers
      ensures Valid() && once == old(once) && attempts >= old(attempts)
      ensures forall j | 0 <= j < TIMERS_COUNT && j != i && !(i == WIFI_CHECK_STAT_TICK && j == WIFI_RECONNECT_TICK) ::
        timers[j] == old(timers[j])
      ensures KeepsOwnTimer(i) ==> timers[i] == old(timers[i])
      ensures i != WIFI_CHECK_STAT_TICK || old(!wifi_connected) ==>
        timers[WIFI_RECONNECT_TICK] == old(timers[WIFI_RECONNECT_TICK])
      ensures i == WIFI_RECONNECT_TICK ==> wifi_connecting && attempts == old(attempts) + 1
      ensures i == WIFI_RECONNECT_TICK ==> wifi_connected == old(wifi_connected)
      ensures i == LT_SENSE_TICK ==> timers[i] == Interval(i)
      ensures i == NTP_TIME_SYNC_TICK ==>
        timers[i] == if old(!waiting_on_BE_response) && !r.Sends() then TIME_SYNC_RETRY_INTERVAL else old(timers[i])
      ensures waiting_on_BE_response <==>
        || old(waiting_on_BE_response)
        || (i == REMOTE_SYNC_TICK && old(!waiting_on_NTP_response && rtc_set) && r.Reaches())
      ensures waiting_on_NTP_response <==>
        old(waiting_on_NTP_response) || (i == NTP_TIME_SYNC_TICK && !old(waiting_on_BE_response) && r.Sends())
      ensures wifi_connected <==> old(wifi_connected) && !(i == WIFI_CHECK_STAT_TICK && Lost(r))
      ensures i != REMOTE_SYNC_TICK && i != NTP_TIME_SYNC_TICK ==> unchanged(`sock)
      ensures attempts == old(attempts) + One(wifi_connected != old(wifi_connected) || i == WIFI_RECONNECT_TICK)
      ensures if attempts > old(attempts) then wifi_connecting else wifi_connecting == old(wifi_connecting)
      ensures wifi_connecting_end_time
           == if attempts > old(attempts) then r.now + WIFI_CONNECTION_TIMEOUT else old(wifi_connecting_end_time)
      ensures ntp_response_end_time
           == if i == NTP_TIME_SYNC_TICK && old(!waiting_on_BE_response) && r.Sends()
              then r.now + NTP_RESPONSE_WAIT_TIME else old(ntp_response_end_time)
      ensures BE_response_end_time
           == if waiting_on_BE_response != old(waiting_on_BE_response)
              then r.now + BE_RESPONSE_WAIT_TIME else old(BE_response_end_time)
      ensures timers[WIFI_RECONNECT_TICK]
           == Restarted(wifi_connected != old(wifi_connected), old(timers[WIFI_RECONNECT_TICK]))
      ensures unchanged(`rtc_set)
    {
      match i
      case 0 => timers[LT_SENSE_TICK] := Interval(LT_SENSE_TICK);
      case 5 => RemoteSync(r);
      case 6 => GetTime(r);
      case 7 => WifiCheckConnectionStatus(r);
      case 8 => WifiReconnectCallback(r);
      case _ =>
    }

    /** What a turn of the loop of `updateTimers` does to the timer, before its callback. */
    method CountDown(i: nat, elapsed: nat) returns (fired: bool)
      requires Valid() && i < TIMERS_COUNT && 0 < elapsed < 0x1_0000
      modifies timers
      ensures Valid() && fired == Advance(old(timers[i]), Interval(i), elapsed).fires
      ensures timers[..] == old(timers[..])[i := Advance(old(timers[i]), Interval(i), elapsed).value]
      ensures fired && i == WIFI_RECONNECT_TICK ==> once && !wifi_connected
    {
      fired := false;
      if timers[i] > elapsed {
        timers[i] := timers[i] - elapsed;
      } else if timers[i] != STOPPED {
        if Interval(i) > 0 {
          var remainder := elapsed - timers[i];
          timers[i] := Interval(i);
          timers[i] := timers[i] - remainder % Interval(i);
        } else {
          timers[i] := STOPPED;
        }
        fired := true;
      }
    }

    /** A turn of the loop of `updateTimers`. */
    method TimerTurn(i: nat, elapsed: nat, r: Radio) returns (fired: bool)
      requires Valid() && i < TIMERS_COUNT && 0 < elapsed < 0x1_0000
      modifies this, timers
      ensures Valid() && once == old(once) && unchanged(`rtc_set)
      ensures fired == Advance(old(timers[i]), Interval(i), elapsed).fires
      ensures TimerAfter(i, fired, !waiting_on_BE_response && !r.Sends(),
                         Advance(old(timers[i]), Interval(i), elapsed).value)
      ensures forall j | 0 <= j < TIMERS_COUNT && j != i && j != WIFI_RECONNECT_TICK :: timers[j] == old(timers[j])
      ensures i != WIFI_RECONNECT_TICK ==>
        timers[WIFI_RECONNECT_TICK]
        == Restarted(wifi_connected != old(wifi_connected), old(timers[WIFI_RECONNECT_TICK]))
      ensures waiting_on_BE_response <==>
        || old(waiting_on_BE_response)
        || (i == REMOTE_SYNC_TICK && fired && old(!waiting_on_NTP_response && rtc_set) && r.Reaches())
      ensures waiting_on_NTP_response <==>
        old(waiting_on_NTP_response) || (i == NTP_TIME_SYNC_TICK && fired && !old(waiting_on_BE_response) && r.Sends())
      ensures wifi_connected <==> old(wifi_connected) && !(i == WIFI_CHECK_STAT_TICK && fired && Lost(r))
      ensures i != REMOTE_SYNC_TICK && i != NTP_TIME_SYNC_TICK ==> unchanged(`sock)
      ensures attempts
           == old(attempts) + One(wifi_connected != old(wifi_connected) || (i == WIFI_RECONNECT_TICK && fired))
      ensures attempts > old(attempts) ==> wifi_connecting
      ensures attempts == old(attempts) ==> unchanged(`wifi_connecting)
      ensures wifi_connecting_end_time
           == if attempts > old(attempts) then r.now + WIFI_CONNECTION_TIMEOUT else old(wifi_connecting_end_time)
      ensures ntp_response_end_time
           == if i == NTP_TIME_SYNC_TICK && fired && !waiting_on_BE_response && r.Sends()
              then r.now + NTP_RESPONSE_WAIT_TIME else old(ntp_response_end_time)
      ensures BE_response_end_time
           == if waiting_on_BE_response != old(waiting_on_BE_response)
              then r.now + BE_RESPONSE_WAIT_TIME else old(BE_response_end_time)
    {
      hide Interval, Advance, SocketOwned, ReconnectTimer, Radio.Reaches, Radio.Sends, Lost;
      fired := CountDown(i, elapsed);
      if fired {
        Callback(i, r);
      }
    }

    /** The value of timer `i` after its turn: what is left of it, unless its callback sets it. */
    ghost predicate TimerAfter(i: nat, fired: bool, fails: bool, value: int)
      requires i < TIMERS_COUNT == timers.Length
      reads timers
    {
      timers[i] == if fired && i == LT_SENSE_TICK then Interval(i)
                   else if fired && i == NTP_TIME_SYNC_TICK && fails then TIME_SYNC_RETRY_INTERVAL
                   else value
    }

    /** The reconnect timer before and after its turn. */
    ghost predicate ReconnectAfter(before: int, i: nat, elapsed: nat, called: set<nat>)
      requires timers.Length == TIMERS_COUNT
      reads timers
    {
      var t := Advance(before, Interval(WIFI_RECONNECT_TICK), elapsed);
      if i <= WIFI_RECONNECT_TICK then timers[WIFI_RECONNECT_TICK] == before && WIFI_RECONNECT_TICK !in called
      else timers[WIFI_RECONNECT_TICK] == t.value && (WIFI_RECONNECT_TICK in called <==> t.fires)
    }

    /** The state that the timers and the answers of the radio work on. */
    ghost function Now(): Snapshot
      reads this, timers
    {
      Snapshot(timers[..], once, wifi_connected, attempts, wifi_connecting, wifi_connecting_end_time,
               waiting_on_NTP_response, ntp_response_end_time, waiting_on_BE_response, BE_response_end_time, rtc_set)
    }

    /** The timers after the turns of the first `n`; `called` are those whose callbacks were due. */
    ghost predicate Turned(b: Snapshot, n: nat, elapsed: nat, radio: seq<Radio>, called: set<nat>)
      requires timers.Length == TIMERS_COUNT == |b.timers| == |radio| && n <= TIMERS_COUNT
      reads this, timers
    {
      && (forall j | j in called :: j < n)
      && (forall j | 0 <= j < n && j != WIFI_RECONNECT_TICK ::
            && (j in called <==> Advance(b.timers[j], Interval(j), elapsed).fires)
            && TimerAfter(j, j in called, !waiting_on_BE_response && !radio[j].Sends(),
                          Advance(b.timers[j], Interval(j), elapsed).value))
      && (forall j | n <= j < TIMERS_COUNT && j != WIFI_RECONNECT_TICK :: timers[j] == b.timers[j])
      && ReconnectAfter(Restarted(wifi_connected != b.connected, b.timers[WIFI_RECONNECT_TICK]), n, elapsed, called)
    }

    /** The connection and the waits after the callbacks `called`. */
    ghost predicate Networked(b: Snapshot, radio: seq<Radio>, called: set<nat>)
      requires |radio| == TIMERS_COUNT
      reads this
    {
      && (wifi_connected <==> b.connected && !(WIFI_CHECK_STAT_TICK in called && Lost(radio[WIFI_CHECK_STAT_TICK])))
      && attempts == b.attempts + One(wifi_connected != b.connected) + One(WIFI_RECONNECT_TICK in called)
      && (if attempts > b.attempts then wifi_connecting else wifi_connecting == b.connecting)
      && (waiting_on_BE_response <==>
            b.backEnd || (REMOTE_SYNC_TICK in called && !b.ntp && rtc_set && radio[REMOTE_SYNC_TICK].Reaches()))
      && (waiting_on_NTP_response <==>
            b.ntp || (NTP_TIME_SYNC_TICK in called && !waiting_on_BE_response && radio[NTP_TIME_SYNC_TICK].Sends()))
    }

    /** The deadlines after the callbacks `called`. */
    ghost predicate Deadlines(b: Snapshot, radio: seq<Radio>, called: set<nat>)
      requires |radio| == TIMERS_COUNT
      reads this
    {
      && ntp_response_end_time
         == (if NTP_TIME_SYNC_TICK in called && !waiting_on_BE_response && radio[NTP_TIME_SYNC_TICK].Sends()
             then radio[NTP_TIME_SYNC_TICK].now + NTP_RESPONSE_WAIT_TIME else b.ntpEnd)
      && BE_response_end_time
         == (if waiting_on_BE_response != b.backEnd
             then radio[REMOTE_SYNC_TICK].now + BE_RESPONSE_WAIT_TIME else b.backEndEnd)
      && wifi_connecting_end_time
         == (if WIFI_RECONNECT_TICK in called then radio[WIFI_RECONNECT_TICK].now + WIFI_CONNECTION_TIMEOUT
             else if wifi_connected != b.connected then radio[WIFI_CHECK_STAT_TICK].now + WIFI_CONNECTION_TIMEOUT
             else b.deadline)
    }

    /** The next turn of the loop of `updateTimers`. */
    method NextTimer(i: nat, elapsed: nat, radio: seq<Radio>, ghost b: Snapshot, called: set<nat>)
      returns (called': set<nat>)
      requires Valid() && i < TIMERS_COUNT == |b.timers| && 0 < elapsed < 0x1_0000 && |radio| == TIMERS_COUNT
      requires Turned(b, i, elapsed, radio, called) && Networked(b, radio, called) && Deadlines(b, radio, called)
      modifies this, timers
      ensures Valid() && once == old(once) && unchanged(`rtc_set)
      ensures Turned(b, i + 1, elapsed, radio, called') && Networked(b, radio, called') && Deadlines(b, radio, called')
    {
      hide Interval, Advance, SocketOwned, ReconnectTimer, Radio.Reaches, Radio.Sends;
      var fired := TimerTurn(i, elapsed, radio[i]);
      called' := if fired then called + {i} else called;
    }

    /** The loop of `updateTimers`. */
    method HandleCallbacks(elapsed: nat, radio: seq<Radio>) returns (called: set<nat>)
      requires Valid() && 0 < elapsed < 0x1_0000 && |radio| == TIMERS_COUNT
      modifies this, timers
      ensures Valid() && once == old(once) && unchanged(`rtc_set)
      ensures Turned(old(Now()), TIMERS_COUNT, elapsed, radio, called)
      ensures Networked(old(Now()), radio, called) && Deadlines(old(Now()), radio, called)
    {
      hide SocketOwned, ReconnectTimer, Turned, Networked, Deadlines;
      ghost var b := Now();
      NoTurns(elapsed, radio);
      called := {};
      var i := 0;
      while i < TIMERS_COUNT
        invariant 0 <= i <= TIMERS_COUNT && Valid() && once == old(once) && unchanged(`rtc_set)
        invariant Turned(b, i, elapsed, radio, called) && Networked(b, radio, called) && Deadlines(b, radio, called)
      {
        called := NextTimer(i, elapsed, radio, b, called);
        i := i + 1;
      }
    }

    /**
     `updateTimers`, called with what `elapsedMS` returns; `called` are the
     timers whose callbacks were due.  At the end, motion switches the screen on.
     */
    method UpdateTimers(elapsed: nat, motion: bool, radio: seq<Radio>) returns (called: set<nat>)
      requires Valid() && elapsed < 0x1_0000 && |radio| == TIMERS_COUNT
      modifies this, timers
      ensures Valid() && once == old(once) && unchanged(`rtc_set)
      ensures forall i | 0 <= i < WIFI_RECONNECT_TICK ::
        && (i in called <==> Advance(old(timers[i]), Interval(i), elapsed).fires)
        && (if i == SCREEN_ON_TICK && motion && elapsed > 0 then timers[i] == Interval(SCREEN_ON_TICK)
            else TimerAfter(i, i in called, !waiting_on_BE_response && !radio[i].Sends(),
                            Advance(old(timers[i]), Interval(i), elapsed).value))
      ensures ReconnectAfter(Restarted(wifi_connected != old(wifi_connected), old(timers[WIFI_RECONNECT_TICK])),
                             TIMERS_COUNT, elapsed, called)
      ensures Networked(old(Now()), radio, called) && Deadlines(old(Now()), radio, called)
      ensures old(!once) ==> !wifi_connected && attempts == old(attempts)
      ensures WIFI_CHECK_STAT_TICK in called && wifi_connected ==> waiting_on_NTP_response || waiting_on_BE_response
      ensures old(timers[REMOTE_SYNC_TICK] == timers[WIFI_CHECK_STAT_TICK]) ==>
        && (REMOTE_SYNC_TICK in called <==> WIFI_CHECK_STAT_TICK in called)
        && timers[REMOTE_SYNC_TICK] == timers[WIFI_CHECK_STAT_TICK]
    {
      hide Interval, Advance, SocketOwned, ReconnectTimer, Networked, Deadlines, Radio.Sends;
      called := {};
      SameInterval();
      if !once {
        NothingTriesAgain(elapsed);
      }
      if elapsed == 0 {
        NoTime();
        NoTurns(elapsed, radio);
        return;
      }
      ghost var b := Now();
      called := HandleCallbacks(elapsed, radio);
      if !once {
        Attempts(b, elapsed, radio, called);
      }
      if WIFI_CHECK_STAT_TICK in called {
        Checked(b, radio, called);
      }
      PollMotionSensor(motion);
    }

    /** `pollMotionSensor`, as far as the timers are concerned. */
    method PollMotionSensor(motion: bool)
      requires Valid()
      modifies timers
      ensures Valid()
      ensures var t := if motion then Interval(SCREEN_ON_TICK) else old(timers[SCREEN_ON_TICK]);
              timers[..] == old(timers[..])[SCREEN_ON_TICK := t]
    {
      if motion {
        timers[SCREEN_ON_TICK] := Interval(SCREEN_ON_TICK);
      }
    }

    lemma NoTurns(elapsed: nat, radio: seq<Radio>)
      requires Valid() && |radio| == TIMERS_COUNT
      ensures Turned(Now(), 0, elapsed, radio, {})
      ensures Networked(Now(), radio, {}) && Deadlines(Now(), radio, {})
    {
    }

    lemma NoTime()
      requires Valid()
      ensures forall i | 0 <= i < TIMERS_COUNT :: Advance(timers[i], Interval(i), 0) == Tick(timers[i], false)
    {
    }

    lemma Attempts(b: Snapshot, elapsed: nat, radio: seq<Radio>, called: set<nat>)
      requires timers.Length == TIMERS_COUNT == |b.timers| && |radio| == TIMERS_COUNT && !b.connected
      requires Turned(b, TIMERS_COUNT, elapsed, radio, called) && Networked(b, radio, called)
      requires !Advance(b.timers[WIFI_RECONNECT_TICK], Interval(WIFI_RECONNECT_TICK), elapsed).fires
      ensures !wifi_connected && attempts == b.attempts
    {
      hide Advance, Interval;
    }

    /** A connection that survives a check has an exchange under way. */
    lemma Checked(b: Snapshot, radio: seq<Radio>, called: set<nat>)
      requires Valid() && |radio| == TIMERS_COUNT && Networked(b, radio, called) && WIFI_CHECK_STAT_TICK in called
      ensures wifi_connected <==> b.connected && radio[WIFI_CHECK_STAT_TICK].onNetwork
                                  && sock != NoSocket && radio[WIFI_CHECK_STAT_TICK].clientState != CLOSED
      ensures wifi_connected ==> waiting_on_NTP_response || waiting_on_BE_response
    {
    }

    lemma SameInterval()
      ensures Interval(REMOTE_SYNC_TICK) == Interval(WIFI_CHECK_STAT_TICK)
    {
    }

    /** Before the first connection, nothing starts an attempt. */
    lemma NothingTriesAgain(elapsed: nat)
      requires Valid() && !once
      ensures !wifi_connected && !Advance(timers[WIFI_RECONNECT_TICK], Interval(WIFI_RECONNECT_TICK), elapsed).fires
    {
    }

    // ----- runs ---------------------------------------------------------------------------

    /**
     One turn of the main loop: `updateTimers`, then `runRemote`.  Both waits
     and the attempt to connect, also those that begin in this turn, end as
     the answers in `t` say.
     */
    method MainLoopTurn(t: Turn)
      requires Valid() && GoodTurn(t)
      modifies this, timers
      ensures Valid() && (old(once) ==> once)
      ensures forall j | j in PERIODIC :: timers[j] == Advance(old(timers[j]), Interval(j), t.elapsed).value
      ensures old(!once) ==>
        && attempts == old(attempts) && unchanged(`wifi_connecting_end_time)
        && (once <==> old(wifi_connecting) && t.wifi.onNetwork)
        && (wifi_connecting <==> old(wifi_connecting) && !t.wifi.onNetwork && t.wifi.now < wifi_connecting_end_time)
      ensures AfterAsking(old(Now()), t, Now()) && AfterPosting(old(Now()), t, Now())
      ensures old(once && !wifi_connected) ==> AfterAttempt(old(Now()), t, Now())
      ensures old(once && wifi_connected) ==> AfterConnection(old(Now()), t, Now())
      ensures old(once && !wifi_connected) && !t.wifi.onNetwork ==>
        var tick := Advance(old(timers[WIFI_RECONNECT_TICK]), WIFI_RECONNECT_INTERVAL, t.elapsed);
        && once && !wifi_connected && timers[WIFI_RECONNECT_TICK] == tick.value
        && attempts == old(attempts) + One(tick.fires)
    {
      hide SocketOwned, ReconnectTimer, Advance, Lost, Radio.Reaches, Radio.Sends, Networked, Deadlines;
      hide Posted, PostEnd, Asked, AskEnd, AskTimer;
      ghost var b := Now();
      Standing();
      StoppedStays(t.elapsed);
      var called := UpdateTimers(t.elapsed, t.motion, t.timers);
      AfterTimers(b, t, called);
      AttemptsDone(b, t, called);
      RunRemote(t.ntp, t.backEnd, t.wifi);
      Standing();
    }

    lemma Standing()
      requires Valid()
      ensures timers.Length == TIMERS_COUNT && (wifi_connecting ==> !wifi_connected) && (!once ==> !wifi_connected)
      ensures once ==> (wifi_connected <==> timers[WIFI_RECONNECT_TICK] == STOPPED)
    {
    }

    /** The exchanges after the timers. */
    lemma AfterTimers(b: Snapshot, t: Turn, called: set<nat>)
      requires |b.timers| == TIMERS_COUNT == timers.Length && GoodTurn(t) && b.rtc == rtc_set
      requires Networked(b, t.timers, called) && Deadlines(b, t.timers, called)
      requires REMOTE_SYNC_TICK in called <==> TickFires(b, REMOTE_SYNC_TICK, t)
      requires NTP_TIME_SYNC_TICK in called <==> TickFires(b, NTP_TIME_SYNC_TICK, t)
      requires TimerAfter(NTP_TIME_SYNC_TICK, NTP_TIME_SYNC_TICK in called,
                          !waiting_on_BE_response && !t.timers[NTP_TIME_SYNC_TICK].Sends(),
                          Advance(b.timers[NTP_TIME_SYNC_TICK], Interval(NTP_TIME_SYNC_TICK), t.elapsed).value)
      ensures waiting_on_BE_response <==> Posted(b, t)
      ensures waiting_on_BE_response ==> BE_response_end_time == PostEnd(b, t)
      ensures waiting_on_NTP_response <==> Asked(b, t)
      ensures ntp_response_end_time == AskEnd(b, t) && timers[NTP_TIME_SYNC_TICK] == AskTimer(b, t)
    {
      hide Advance, Interval, Radio.Reaches, Radio.Sends, Lost;
    }

    /** The attempts after the timers. */
    lemma AttemptsDone(b: Snapshot, t: Turn, called: set<nat>)
      requires |b.timers| == TIMERS_COUNT && GoodTurn(t)
      requires Networked(b, t.timers, called) && Deadlines(b, t.timers, called)
      ensures !b.connected ==> !wifi_connected
      ensures wifi_connected == b.connected ==>
        && attempts == b.attempts + One(WIFI_RECONNECT_TICK in called)
        && (wifi_connecting <==> b.connecting || WIFI_RECONNECT_TICK in called)
        && wifi_connecting_end_time == if WIFI_RECONNECT_TICK in called
                                       then t.timers[WIFI_RECONNECT_TICK].now + WIFI_CONNECTION_TIMEOUT else b.deadline
      ensures WIFI_CHECK_STAT_TICK !in called ==> wifi_connected == b.connected
      ensures b.connected && WIFI_CHECK_STAT_TICK in called && !t.timers[WIFI_CHECK_STAT_TICK].onNetwork ==>
        !wifi_connected && wifi_connecting && attempts > b.attempts
    {
      hide Advance, Interval, Radio.Reaches, Radio.Sends;
    }

    lemma OneWait()
      requires Valid()
      ensures !(Now().ntp && Now().backEnd) && (Now().connecting ==> !Now().connected)
    {
    }

    /** How the first attempt to connect goes. */
    ghost predicate FirstAttempt(turns: seq<Turn>, deadline: nat, tried: nat)
      reads this
    {
      && (once <==> Connects(turns, deadline))
      && (!once ==> attempts == tried && wifi_connecting_end_time == deadline)
      && (!once ==> (wifi_connecting <==> !Expired(turns, deadline)))
    }

    /** Without a network, after the first connection. */
    ghost predicate Retrying(start: int, es: seq<nat>, tried: nat)
      requires timers.Length == TIMERS_COUNT
      reads this, timers
    {
      && once && !wifi_connected && timers[WIFI_RECONNECT_TICK] == AfterCalls(start, WIFI_RECONNECT_INTERVAL, es)
      && attempts == tried + Firings(start, WIFI_RECONNECT_INTERVAL, es)
    }

    /**
     Any number of turns of the main loop, whatever the radio answers.  A
     periodic timer that no callback sets ends where one long call would leave
     it.  The first attempt to connect succeeds or fails for good.  After a
     later loss, there is an attempt in each call in which a deadline of the
     reconnect timer passes.
     */
    method Run(turns: seq<Turn>)
      requires Valid() && GoodTurns(turns)
      modifies this, timers
      ensures Valid()
      ensures forall j | j in PERIODIC && old(timers[j]) > 0 ::
        timers[j] == Phase(old(timers[j]), Interval(j), Sum(Elapsed(turns)))
      ensures old(GivenUp()) ==> GivenUp() && attempts == old(attempts)
      ensures old(!once && wifi_connecting) ==>
        && (once <==> Connects(turns, old(wifi_connecting_end_time)))
        && (GivenUp() <==> !once && Expired(turns, old(wifi_connecting_end_time)))
        && (!once ==> attempts == old(attempts))
      ensures old(once && !wifi_connected) && Offline(turns) ==>
        && once && !wifi_connected
        && var start := old(timers[WIFI_RECONNECT_TICK]);
           attempts == old(attempts) + Firings(start, WIFI_RECONNECT_INTERVAL, Elapsed(turns))
      ensures old(once) ==> once
      ensures old(once && waiting_on_NTP_response) ==> WaitOutcome(old(Now()), turns, Now())
      ensures old(waiting_on_BE_response) ==> PostOutcome(old(Now()), turns, Now())
      ensures old(once && !wifi_connected) ==> AttemptOutcome(old(Now()), turns, Now())
      ensures old(Now().Starting()) ==> StartOutcome(old(Now()), turns, Now())
    {
      hide WaitOutcome, PostOutcome, AttemptOutcome, StartOutcome, AfterAsking, AfterPosting, AfterAttempt;
      hide SocketOwned, ReconnectTimer, Advance, Phase, AfterCalls, Interval, Elapsed, Sum, Firings, Connects, Expired;
      ghost var before, deadline := timers[..], wifi_connecting_end_time;
      ghost var es, b := [], Now();
      NoTurn(deadline);
      NoOutcome(b);
      forall j: nat | j < TIMERS_COUNT ensures before[j] == AfterCalls(before[j], Interval(j), []) {
        NoCalls(before[j], Interval(j));
      }
      NoCalls(before[WIFI_RECONNECT_TICK], WIFI_RECONNECT_INTERVAL);
      var i := 0;
      while i < |turns|
        invariant 0 <= i <= |turns| && Valid() && es == Elapsed(turns[..i])
        invariant forall j | j in PERIODIC :: timers[j] == AfterCalls(before[j], Interval(j), es)
        invariant old(GivenUp()) ==> GivenUp() && attempts == old(attempts)
        invariant old(!once && wifi_connecting) ==> FirstAttempt(turns[..i], deadline, old(attempts))
        invariant old(once && !wifi_connected) && Offline(turns) ==>
          Retrying(before[WIFI_RECONNECT_TICK], es, old(attempts))
        invariant b.once ==> once
        invariant b.once && b.ntp ==> WaitOutcome(b, turns[..i], Now())
        invariant b.backEnd ==> PostOutcome(b, turns[..i], Now())
        invariant b.once && !b.connected ==> AttemptOutcome(b, turns[..i], Now())
        invariant b.Starting() ==> StartOutcome(b, turns[..i], Now())
      {
        ghost var m := Now();
        OneWait();
        MoreTurns(turns[..i], turns[i], deadline);
        assert turns[..i + 1] == turns[..i] + [turns[i]];
        forall j: nat | j < TIMERS_COUNT
          ensures AfterCalls(before[j], Interval(j), es + [turns[i].elapsed])
               == Advance(AfterCalls(before[j], Interval(j), es), Interval(j), turns[i].elapsed).value
        {
          OneMoreCall(before[j], Interval(j), es, turns[i].elapsed);
        }
        OneMoreCall(before[WIFI_RECONNECT_TICK], WIFI_RECONNECT_INTERVAL, es, turns[i].elapsed);
        MainLoopTurn(turns[i]);
        OneMoreTurn(b, turns[..i], m, turns[i], Now());
        es := es + [turns[i].elapsed];
        i := i + 1;
      }
      assert turns[..i] == turns;
      forall j | j in PERIODIC ensures Interval(j) > 0 { PeriodicInterval(j); }
      forall j | j in PERIODIC && before[j] > 0
        ensures timers[j] == Phase(before[j], Interval(j), Sum(Elapsed(turns)))
      {
        SplitIrrelevant(before[j], Interval(j), es);
      }
    }
  }

  /** A run from the beginning: the radio connects before the deadline of its first attempt, or never. */
  method FirstRun(now: nat, turns: seq<Turn>) returns (app: App)
    requires GoodTurns(turns)
    ensures fresh(app) && app.Valid()
    ensures app.once <==> Connects(turns, now + WIFI_CONNECTION_TIMEOUT)
    ensures app.GivenUp() <==> !app.once && Expired(turns, now + WIFI_CONNECTION_TIMEOUT)
    ensures !app.once ==> app.attempts == 1
  {
    hide App.SocketOwned, App.ReconnectTimer, Connects, Expired;
    app := new App(now);
    app.Run(turns);
  }

  /**
   An ordinary start: the radio connects in the last of `turns`, which has a
   socket for the request, and a packet comes in one of `more` before whose
   turns none finds 1.5 s passed.  Then the clock is set, provided that all this
   takes less than the hour after which the time server would be asked anyhow.
   */
  method FirstSync(now: nat, turns: seq<Turn>, more: seq<Turn>) returns (app: App)
    requires GoodTurns(turns) && GoodTurns(more) && turns != []
    requires Sum(Elapsed(turns)) + Sum(Elapsed(more)) < Interval(NTP_TIME_SYNC_TICK)
    requires var end := now + WIFI_CONNECTION_TIMEOUT; !Connects(Init(turns), end) && Connects(turns, end)
    requires Last(turns).wifi.Sends()
    ensures fresh(app) && app.Valid() && app.once
    ensures InTime(more, Last(turns).wifi.now + NTP_RESPONSE_WAIT_TIME) ==> app.rtc_set
  {
    hide App.SocketOwned, App.ReconnectTimer, Connects, Expired, Elapsed, Sum, InTime, Answered, WaitLasts, Interval;
    app := new App(now);
    TimersAtStart();
    ghost var a := app.Now();
    app.Run(turns);
    ghost var b := app.Now();
    app.Run(more);
    PacketInTime(b.Asking(), more);
  }

  lemma TimersAtStart()
    ensures Interval(NTP_TIME_SYNC_TICK) > 0
  {
  }

  /** The state of the application and of its timers before they are updated. */
  datatype Snapshot = Snapshot(timers: seq<int>, once: bool, connected: bool, attempts: nat, connecting: bool,
                               deadline: nat, ntp: bool, ntpEnd: nat, backEnd: bool, backEndEnd: nat, rtc: bool) {
    function Attempting(): Attempt
      requires |timers| == TIMERS_COUNT
    {
      Attempt(timers[WIFI_RECONNECT_TICK], connecting, deadline)
    }

    /** Still without a connection, and nothing has been asked. */
    predicate Starting() { !once && connecting && !ntp && !backEnd && !rtc }

    function Asking(): Wait
      requires |timers| == TIMERS_COUNT
    {
      Wait(timers[NTP_TIME_SYNC_TICK], ntpEnd)
    }
  }

  /** What the clock and the radio answer during a turn of the main loop. */
  datatype Turn = Turn(elapsed: nat, motion: bool, timers: seq<Radio>, ntp: Radio, backEnd: Radio, wifi: Radio)

  /** The timers that have an interval and are set by no callback: sensors, debug output, back end, connection check. */
  const PERIODIC: set<nat> := {TEMP_SENSE_TICK, SENSOR_DEBUG_TICK, REMOTE_SYNC_TICK, WIFI_CHECK_STAT_TICK}

  lemma PeriodicInterval(i: nat)
    requires i in PERIODIC
    ensures i < TIMERS_COUNT && Interval(i) > 0 && KeepsOwnTimer(i)
  {
  }

  predicate GoodTurn(t: Turn) { t.elapsed < 0x1_0000 && |t.timers| == TIMERS_COUNT }

  predicate GoodTurns(turns: seq<Turn>) { forall i | 0 <= i < |turns| :: GoodTurn(turns[i]) }

  // ----- waits and attempts, by the answers ---------------------------------------------------

  predicate TickFires(b: Snapshot, i: nat, t: Turn)
    requires |b.timers| == TIMERS_COUNT && i < TIMERS_COUNT
  {
    Advance(b.timers[i], Interval(i), t.elapsed).fires
  }

  /** After the timers, the back end is to answer. */
  predicate Posted(b: Snapshot, t: Turn)
    requires |b.timers| == TIMERS_COUNT == |t.timers|
  {
    b.backEnd || (TickFires(b, REMOTE_SYNC_TICK, t) && !b.ntp && b.rtc && t.timers[REMOTE_SYNC_TICK].Reaches())
  }

  function PostEnd(b: Snapshot, t: Turn): nat
    requires |b.timers| == TIMERS_COUNT == |t.timers|
  {
    if b.backEnd then b.backEndEnd else t.timers[REMOTE_SYNC_TICK].now + BE_RESPONSE_WAIT_TIME
  }

  lemma StoppedStays(elapsed: nat)
    ensures Advance(STOPPED, Interval(WIFI_RECONNECT_TICK), elapsed) == Tick(STOPPED, false)
  {
  }

  /** Every byte from the back end moves the deadline. */
  function Heard(deadline: nat, t: Turn): nat {
    if t.backEnd.bytes > 0 then t.backEnd.now + BE_RESPONSE_WAIT_TIME else deadline
  }

  /** The timer asks the time server, unless the back end is to answer; with a socket, the request is sent. */
  predicate Asks(b: Snapshot, t: Turn)
    requires |b.timers| == TIMERS_COUNT == |t.timers|
  {
    TickFires(b, NTP_TIME_SYNC_TICK, t) && !Posted(b, t) && t.timers[NTP_TIME_SYNC_TICK].Sends()
  }

  /** After the timers, the time server is to answer. */
  predicate Asked(b: Snapshot, t: Turn)
    requires |b.timers| == TIMERS_COUNT == |t.timers|
  {
    b.ntp || Asks(b, t)
  }

  function AskEnd(b: Snapshot, t: Turn): nat
    requires |b.timers| == TIMERS_COUNT == |t.timers|
  {
    if Asks(b, t) then t.timers[NTP_TIME_SYNC_TICK].now + NTP_RESPONSE_WAIT_TIME else b.ntpEnd
  }

  function AskTimer(b: Snapshot, t: Turn): int
    requires |b.timers| == TIMERS_COUNT == |t.timers|
  {
    var tick := Advance(b.timers[NTP_TIME_SYNC_TICK], Interval(NTP_TIME_SYNC_TICK), t.elapsed);
    if tick.fires && !Posted(b, t) && !t.timers[NTP_TIME_SYNC_TICK].Sends() then TIME_SYNC_RETRY_INTERVAL
    else tick.value
  }

  /**
   What a turn from `b` to `c` does to the wait for the time server: a packet
   sets the clock, and without a first connection, which asks the server, the
   wait ends with a packet or at its deadline.
   */
  predicate AfterAsking(b: Snapshot, t: Turn, c: Snapshot)
    requires |b.timers| == |c.timers| == TIMERS_COUNT == |t.timers|
  {
    && (c.rtc <==> b.rtc || (Asked(b, t) && t.ntp.packet))
    && (c.once == b.once ==>
          && (c.ntp <==> Asked(b, t) && !t.ntp.packet && t.ntp.now < AskEnd(b, t))
          && (c.ntp ==> c.ntpEnd == AskEnd(b, t))
          && (c.ntp || !Asked(b, t) ==> c.timers[NTP_TIME_SYNC_TICK] == AskTimer(b, t)))
    && (!b.once && c.once && !c.backEnd && !Asked(b, t) && t.wifi.Sends() ==>
          && c.ntp && c.ntpEnd == t.wifi.now + NTP_RESPONSE_WAIT_TIME
          && c.timers[NTP_TIME_SYNC_TICK] == AskTimer(b, t))
  }

  /** And to the wait for the back end: it ends at its deadline or when the server closes. */
  predicate AfterPosting(b: Snapshot, t: Turn, c: Snapshot)
    requires |b.timers| == TIMERS_COUNT == |t.timers|
  {
    && (c.backEnd <==> Posted(b, t) && t.backEnd.now < PostEnd(b, t) && t.backEnd.open)
    && (c.backEnd ==> c.backEndEnd == Heard(PostEnd(b, t), t))
  }

  /** And to the attempt to connect, after a loss. */
  predicate AfterAttempt(b: Snapshot, t: Turn, c: Snapshot)
    requires |b.timers| == |c.timers| == TIMERS_COUNT == |t.timers|
  {
    && (c.connected <==> b.Attempting().Connects(t))
    && (if c.connected then !c.connecting && c.timers[WIFI_RECONNECT_TICK] == STOPPED
        else c.Attempting() == b.Attempting().After(t))
  }

  /**
   And to a connection: it stands unless it is checked; without the network a
   check finds it lost, and an attempt begins.
   */
  predicate AfterConnection(b: Snapshot, t: Turn, c: Snapshot)
    requires |b.timers| == TIMERS_COUNT == |t.timers|
  {
    var checked := TickFires(b, WIFI_CHECK_STAT_TICK, t);
    && (!checked ==> c.connected && c.attempts == b.attempts)
    && (checked && !t.timers[WIFI_CHECK_STAT_TICK].onNetwork ==>
          && (c.connected <==> t.wifi.onNetwork) && c.attempts > b.attempts
          && (c.connecting <==> !t.wifi.onNetwork && t.wifi.now < c.deadline))
  }

  /** The timer for asking the time server, and the deadline of a wait for it. */
  datatype Wait = Wait(timer: int, deadline: nat) {
    /** After the timers: a request that is sent again moves the deadline, one that fails loads the timer. */
    function After(t: Turn): Wait
      requires |t.timers| == TIMERS_COUNT
    {
      var tick := Advance(timer, Interval(NTP_TIME_SYNC_TICK), t.elapsed);
      if !tick.fires then Wait(tick.value, deadline)
      else if t.timers[NTP_TIME_SYNC_TICK].Sends() then
        Wait(tick.value, t.timers[NTP_TIME_SYNC_TICK].now + NTP_RESPONSE_WAIT_TIME)
      else Wait(TIME_SYNC_RETRY_INTERVAL, deadline)
    }

    /** A packet, or the deadline. */
    predicate EndsIn(t: Turn)
      requires |t.timers| == TIMERS_COUNT
    {
      t.ntp.packet || t.ntp.now >= After(t).deadline
    }
  }

  /** The reconnect timer, whether an attempt to connect is under way, and its deadline. */
  datatype Attempt = Attempt(timer: int, connecting: bool, deadline: nat) {
    function Tick(t: Turn): Tick { Advance(timer, WIFI_RECONNECT_INTERVAL, t.elapsed) }

    /** An attempt is under way, or the timer starts one, when the radio gets onto the network. */
    predicate Connects(t: Turn) { (connecting || Tick(t).fires) && t.wifi.onNetwork }

    /** After a turn that does not connect. */
    function After(t: Turn): Attempt
      requires |t.timers| == TIMERS_COUNT
    {
      var end := if Tick(t).fires then t.timers[WIFI_RECONNECT_TICK].now + WIFI_CONNECTION_TIMEOUT else deadline;
      Attempt(Tick(t).value, (connecting || Tick(t).fires) && !t.wifi.onNetwork && t.wifi.now < end, end)
    }
  }

  // ----- over runs ------------------------------------------------------------------------------

  function Init(turns: seq<Turn>): (r: seq<Turn>)
    requires turns != []
    ensures GoodTurns(turns) ==> GoodTurns(r)
  {
    turns[..|turns| - 1]
  }

  function Last(turns: seq<Turn>): (t: Turn)
    requires turns != []
    ensures GoodTurns(turns) ==> GoodTurn(t)
  {
    turns[|turns| - 1]
  }

  /** A wait for the time server that lasts over all turns. */
  function WaitAfter(w: Wait, turns: seq<Turn>): Wait
    requires GoodTurns(turns)
    decreases |turns|
  {
    if turns == [] then w else WaitAfter(w, Init(turns)).After(Last(turns))
  }

  predicate WaitLasts(w: Wait, turns: seq<Turn>)
    requires GoodTurns(turns)
    decreases |turns|
  {
    turns == [] || (WaitLasts(w, Init(turns)) && !WaitAfter(w, Init(turns)).EndsIn(Last(turns)))
  }

  /** A packet comes while the wait lasts. */
  predicate Answered(w: Wait, turns: seq<Turn>)
    requires GoodTurns(turns)
    decreases |turns|
  {
    turns != [] && (Answered(w, Init(turns)) || (WaitLasts(w, Init(turns)) && Last(turns).ntp.packet))
  }

  /**
   What becomes of a pending wait for the time server: it ends in the first
   turn with a packet or a passed deadline, and the clock is set from the turn
   on in which a packet ends it.
   */
  predicate WaitOutcome(b: Snapshot, turns: seq<Turn>, c: Snapshot)
    requires |b.timers| == TIMERS_COUNT == |c.timers| && GoodTurns(turns)
  {
    && (WaitLasts(b.Asking(), turns) ==> c.ntp && c.rtc == b.rtc && c.Asking() == WaitAfter(b.Asking(), turns))
    && (b.rtc || Answered(b.Asking(), turns) ==> c.rtc)
    && (turns != [] && WaitLasts(b.Asking(), Init(turns)) && !WaitLasts(b.Asking(), turns) ==>
          !c.ntp && (c.rtc <==> b.rtc || Last(turns).ntp.packet))
  }

  /** The deadline of a wait for the back end that lasts over all turns. */
  function HeardAfter(deadline: nat, turns: seq<Turn>): nat
    decreases |turns|
  {
    if turns == [] then deadline else Heard(HeardAfter(deadline, Init(turns)), Last(turns))
  }

  predicate PostLasts(deadline: nat, turns: seq<Turn>)
    decreases |turns|
  {
    turns == []
    || (PostLasts(deadline, Init(turns)) && Last(turns).backEnd.now < HeardAfter(deadline, Init(turns))
        && Last(turns).backEnd.open)
  }

  /** A pending wait for the back end ends in the first turn that finds its deadline passed or the server closed. */
  predicate PostOutcome(b: Snapshot, turns: seq<Turn>, c: Snapshot) {
    && (PostLasts(b.backEndEnd, turns) ==> c.backEnd && c.backEndEnd == HeardAfter(b.backEndEnd, turns))
    && (turns != [] && PostLasts(b.backEndEnd, Init(turns)) && !PostLasts(b.backEndEnd, turns) ==> !c.backEnd)
  }

  /** The attempts after turns of which none connects. */
  function AttemptAfter(a: Attempt, turns: seq<Turn>): Attempt
    requires GoodTurns(turns)
    decreases |turns|
  {
    if turns == [] then a else AttemptAfter(a, Init(turns)).After(Last(turns))
  }

  predicate NeverConnects(a: Attempt, turns: seq<Turn>)
    requires GoodTurns(turns)
    decreases |turns|
  {
    turns == [] || (NeverConnects(a, Init(turns)) && !AttemptAfter(a, Init(turns)).Connects(Last(turns)))
  }

  /** After a loss there is a connection from the first turn on in which an attempt meets the network. */
  predicate AttemptOutcome(b: Snapshot, turns: seq<Turn>, c: Snapshot)
    requires |b.timers| == TIMERS_COUNT == |c.timers| && GoodTurns(turns)
  {
    && (NeverConnects(b.Attempting(), turns) ==>
          !c.connected && c.Attempting() == AttemptAfter(b.Attempting(), turns))
    && (turns != [] && NeverConnects(b.Attempting(), Init(turns)) && !NeverConnects(b.Attempting(), turns) ==>
          c.connected && !c.connecting && c.timers[WIFI_RECONNECT_TICK] == STOPPED)
  }

  /**
   Nothing is asked before the first connection, as long as the timer for it
   has not run out; the connection asks the time server.
   */
  predicate StartOutcome(b: Snapshot, turns: seq<Turn>, c: Snapshot)
    requires |b.timers| == TIMERS_COUNT == |c.timers| && GoodTurns(turns)
  {
    Sum(Elapsed(turns)) < b.timers[NTP_TIME_SYNC_TICK] ==>
      && (c.once <==> Connects(turns, b.deadline))
      && (!Connects(turns, b.deadline) ==> Unasked(b, turns, c) && !c.ntp)
      && (turns != [] && !Connects(Init(turns), b.deadline) && Connects(turns, b.deadline)
          && Last(turns).wifi.Sends() ==>
            Unasked(b, turns, c) && c.ntp && c.ntpEnd == Last(turns).wifi.now + NTP_RESPONSE_WAIT_TIME)
  }

  predicate Unasked(b: Snapshot, turns: seq<Turn>, c: Snapshot)
    requires |b.timers| == TIMERS_COUNT == |c.timers|
  {
    !c.backEnd && !c.rtc && c.timers[NTP_TIME_SYNC_TICK] == b.timers[NTP_TIME_SYNC_TICK] - Sum(Elapsed(turns))
  }

  lemma NoOutcome(b: Snapshot)
    requires |b.timers| == TIMERS_COUNT
    ensures b.ntp ==> WaitOutcome(b, [], b)
    ensures b.backEnd ==> PostOutcome(b, [], b)
    ensures !b.connected ==> AttemptOutcome(b, [], b)
    ensures b.Starting() ==> StartOutcome(b, [], b)
  {
  }

  lemma OneMoreTurn(b: Snapshot, turns: seq<Turn>, m: Snapshot, t: Turn, c: Snapshot)
    requires |b.timers| == |m.timers| == |c.timers| == TIMERS_COUNT && GoodTurns(turns) && GoodTurn(t)
    requires (b.once ==> m.once) && (m.once ==> c.once) && !(m.ntp && m.backEnd)
    requires AfterAsking(m, t, c) && AfterPosting(m, t, c) && (m.once && !m.connected ==> AfterAttempt(m, t, c))
    requires !m.once ==> (c.once <==> m.connecting && t.wifi.onNetwork)
    requires b.Starting() ==> (m.once <==> Connects(turns, b.deadline))
    requires b.Starting() ==> (c.once <==> Connects(turns + [t], b.deadline))
    ensures b.once && b.ntp && WaitOutcome(b, turns, m) ==> WaitOutcome(b, turns + [t], c)
    ensures b.backEnd && PostOutcome(b, turns, m) ==> PostOutcome(b, turns + [t], c)
    ensures b.once && !b.connected && AttemptOutcome(b, turns, m) ==> AttemptOutcome(b, turns + [t], c)
    ensures b.Starting() && StartOutcome(b, turns, m) ==> StartOutcome(b, turns + [t], c)
  {
    hide WaitOutcome, PostOutcome, AttemptOutcome, StartOutcome, AfterAsking, AfterPosting, AfterAttempt, Connects;
    if b.once && b.ntp && WaitOutcome(b, turns, m) {
      WaitStep(b, turns, m, t, c);
    }
    if b.backEnd && PostOutcome(b, turns, m) {
      PostStep(b, turns, m, t, c);
    }
    if b.once && !b.connected && AttemptOutcome(b, turns, m) {
      AttemptStep(b, turns, m, t, c);
    }
    if b.Starting() && StartOutcome(b, turns, m) {
      StartStep(b, turns, m, t, c);
    }
  }

  lemma WaitStep(b: Snapshot, turns: seq<Turn>, m: Snapshot, t: Turn, c: Snapshot)
    requires |b.timers| == |m.timers| == |c.timers| == TIMERS_COUNT && GoodTurns(turns) && GoodTurn(t)
    requires m.once && c.once && !(m.ntp && m.backEnd) && AfterAsking(m, t, c) && WaitOutcome(b, turns, m)
    ensures WaitOutcome(b, turns + [t], c)
  {
    hide Advance, Interval, Radio.Sends, Radio.Reaches;
    var more := turns + [t];
    assert Init(more) == turns && Last(more) == t && GoodTurns(more);
  }

  lemma PostStep(b: Snapshot, turns: seq<Turn>, m: Snapshot, t: Turn, c: Snapshot)
    requires |b.timers| == |m.timers| == |c.timers| == TIMERS_COUNT && GoodTurns(turns) && GoodTurn(t)
    requires AfterPosting(m, t, c) && PostOutcome(b, turns, m)
    ensures PostOutcome(b, turns + [t], c)
  {
    hide Advance, Interval, Radio.Sends, Radio.Reaches;
    var more := turns + [t];
    assert Init(more) == turns && Last(more) == t;
  }

  lemma AttemptStep(b: Snapshot, turns: seq<Turn>, m: Snapshot, t: Turn, c: Snapshot)
    requires |b.timers| == |m.timers| == |c.timers| == TIMERS_COUNT && GoodTurns(turns) && GoodTurn(t)
    requires (!m.connected ==> AfterAttempt(m, t, c)) && AttemptOutcome(b, turns, m)
    ensures AttemptOutcome(b, turns + [t], c)
  {
    hide Advance, Interval, Radio.Sends, Radio.Reaches, Attempt.After, Attempt.Connects;
    var more := turns + [t];
    assert Init(more) == turns && Last(more) == t && GoodTurns(more);
  }

  lemma StartStep(b: Snapshot, turns: seq<Turn>, m: Snapshot, t: Turn, c: Snapshot)
    requires |b.timers| == |m.timers| == |c.timers| == TIMERS_COUNT && GoodTurns(turns) && GoodTurn(t)
    requires AfterAsking(m, t, c) && AfterPosting(m, t, c) && StartOutcome(b, turns, m)
    requires m.once ==> c.once
    requires m.once <==> Connects(turns, b.deadline)
    requires c.once <==> Connects(turns + [t], b.deadline)
    ensures StartOutcome(b, turns + [t], c)
  {
    hide Connects, Elapsed, Sum, Posted, Asked, AskTimer, AskEnd, Advance, Interval, Radio.Sends, Radio.Reaches;
    var more := turns + [t];
    assert Init(more) == turns && Last(more) == t && GoodTurns(more);
    SumMore(turns, t);
    if !m.once && Sum(Elapsed(more)) < b.timers[NTP_TIME_SYNC_TICK] {
      assert Unasked(b, turns, m) && !m.ntp;
      NotAsked(m, t);
    }
  }

  /** While the timer for it has not run out, the time server is not asked, and without a time the back end neither. */
  lemma NotAsked(m: Snapshot, t: Turn)
    requires |m.timers| == TIMERS_COUNT && GoodTurn(t)
    requires !m.ntp && !m.backEnd && !m.rtc && t.elapsed < m.timers[NTP_TIME_SYNC_TICK]
    ensures !Posted(m, t) && !Asked(m, t) && AskTimer(m, t) == m.timers[NTP_TIME_SYNC_TICK] - t.elapsed
  {
  }

  lemma SumMore(turns: seq<Turn>, t: Turn)
    ensures Sum(Elapsed(turns + [t])) == Sum(Elapsed(turns)) + t.elapsed
  {
    var es := Elapsed(turns + [t]);
    assert es[..|es| - 1] == Elapsed(turns);
  }

  /** A packet comes in a turn before which none finds the deadline passed. */
  predicate InTime(turns: seq<Turn>, deadline: nat) {
    exists k | 0 <= k < |turns| :: turns[k].ntp.packet && forall j | 0 <= j < k :: turns[j].ntp.now < deadline
  }

  predicate Silent(turns: seq<Turn>, deadline: nat) {
    forall j | 0 <= j < |turns| :: !turns[j].ntp.packet && turns[j].ntp.now < deadline
  }

  /** As long as the timer does not run out, the deadline of a wait stays, and a packet in time answers it. */
  lemma {:induction false} PacketInTime(w: Wait, turns: seq<Turn>)
    requires GoodTurns(turns) && Sum(Elapsed(turns)) < w.timer
    ensures InTime(turns, w.deadline) ==> Answered(w, turns)
    ensures Silent(turns, w.deadline) ==>
      WaitLasts(w, turns) && WaitAfter(w, turns) == Wait(w.timer - Sum(Elapsed(turns)), w.deadline)
    decreases |turns|
  {
    hide Elapsed, Sum, Interval;
    if turns == [] {
      assert Elapsed([]) == [] by { NoTurn(0); }
      assert Sum([]) == 0 by { SumNothing(); }
    } else {
      var init, t := Init(turns), Last(turns);
      assert init + [t] == turns;
      SumMore(init, t);
      PacketInTime(w, init);
      InTimeMore(init, t, w.deadline);
    }
  }

  lemma SumNothing()
    ensures Sum([]) == 0
  {
  }

  lemma InTimeMore(turns: seq<Turn>, t: Turn, deadline: nat)
    ensures InTime(turns + [t], deadline) ==> InTime(turns, deadline) || (Silent(turns, deadline) && t.ntp.packet)
    ensures Silent(turns + [t], deadline) ==> Silent(turns, deadline) && !t.ntp.packet && t.ntp.now < deadline
  {
    var more := turns + [t];
    assert more[|turns|] == t && forall i | 0 <= i < |turns| :: more[i] == turns[i];
    if InTime(more, deadline) && !InTime(turns, deadline) {
      FirstPacket(turns, deadline);
    }
  }

  /** Without a packet in time, no packet comes before the deadline is found passed. */
  lemma {:induction false} FirstPacket(turns: seq<Turn>, deadline: nat)
    requires !InTime(turns, deadline) && forall j | 0 <= j < |turns| :: turns[j].ntp.now < deadline
    ensures Silent(turns, deadline)
  {
  }

  predicate Online(turns: seq<Turn>) { forall i | 0 <= i < |turns| :: turns[i].wifi.onNetwork }

  /** A network that is back is found at the latest when the reconnect timer runs out. */
  lemma {:induction false} Reconnects(a: Attempt, turns: seq<Turn>)
    requires GoodTurns(turns) && Online(turns) && a.timer > 0
    ensures NeverConnects(a, turns) ==>
      Sum(Elapsed(turns)) < a.timer && AttemptAfter(a, turns).timer == a.timer - Sum(Elapsed(turns))
    decreases |turns|
  {
    hide Elapsed, Sum;
    if turns == [] {
      assert Elapsed([]) == [] by { NoTurn(0); }
      assert Sum([]) == 0 by { SumNothing(); }
    } else {
      var init, t := Init(turns), Last(turns);
      assert init + [t] == turns;
      SumMore(init, t);
      Reconnects(a, init);
    }
  }

  function Elapsed(turns: seq<Turn>): seq<nat> { seq(|turns|, i requires 0 <= i < |turns| => turns[i].elapsed) }

  /** The radio gets onto the network in a turn that finds no earlier deadline of the attempt passed. */
  predicate Connects(turns: seq<Turn>, deadline: nat) {
    exists i | 0 <= i < |turns| :: turns[i].wifi.onNetwork && !Expired(turns[..i], deadline)
  }

  predicate Expired(turns: seq<Turn>, deadline: nat) { exists i | 0 <= i < |turns| :: turns[i].wifi.now >= deadline }

  predicate Offline(turns: seq<Turn>) { forall i | 0 <= i < |turns| :: !turns[i].wifi.onNetwork }

  lemma NoTurn(deadline: nat)
    ensures Elapsed([]) == [] && !Connects([], deadline) && !Expired([], deadline)
  {
  }

  lemma MoreTurns(turns: seq<Turn>, t: Turn, deadline: nat)
    ensures Elapsed(turns + [t]) == Elapsed(turns) + [t.elapsed]
    ensures Expired(turns + [t], deadline) <==> Expired(turns, deadline) || t.wifi.now >= deadline
    ensures Connects(turns + [t], deadline) <==>
      Connects(turns, deadline) || (t.wifi.onNetwork && !Expired(turns, deadline))
  {
    hide Expired;
    var more := turns + [t];
    assert forall i | 0 <= i <= |turns| :: more[..i] == turns[..i];
    assert turns[..|turns|] == turns && more[|turns|] == t;
    assert forall i | 0 <= i < |turns| :: more[i] == turns[i];
    ExpiredMore(turns, t, deadline);
  }

  lemma ExpiredMore(turns: seq<Turn>, t: Turn, deadline: nat)
    ensures Expired(turns + [t], deadline) <==> Expired(turns, deadline) || t.wifi.now >= deadline
  {
    var more := turns + [t];
    assert more[|turns|] == t && forall i | 0 <= i < |turns| :: more[i] == turns[i];
  }

  lemma NoCalls(start: int, interval: nat)
    ensures AfterCalls(start, interval, []) == start && Firings(start, interval, []) == 0
  {
  }

  lemma OneMoreCall(start: int, interval: nat, es: seq<nat>, e: nat)
    ensures var tick := Advance(AfterCalls(start, interval, es), interval, e);
            && AfterCalls(start, interval, es + [e]) == tick.value
            && Firings(start, interval, es + [e]) == Firings(start, interval, es) + One(tick.fires)
  {
    assert (es + [e])[..|es|] == es;
  }

  /** The timers whose callbacks leave their own value alone. */
  predicate KeepsOwnTimer(i: nat) { i != LT_SENSE_TICK && i != NTP_TIME_SYNC_TICK }
}
