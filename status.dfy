/**
 * The web console's labels and colours for the numeric enum codes the API
 * returns (web/src/utils/status.ts). A code the console does not know is
 * shown as "Unknown".
 */
module Status {
  import opened Models

  function DeviceStatusLabel(code: int): (r: string)
    ensures r == "Unknown" <==> code !in {1, 2, 3}
  {
    if code == 1 then "Online"
    else if code == 2 then "Offline"
    else if code == 3 then "Error"
    else "Unknown"
  }

  function DeviceStatusColor(code: int): (r: string)
    ensures r == "#868e96" <==> code !in {1, 2, 3}
  {
    if code == 1 then "#2f9e44"
    else if code == 2 then "#d9480f"
    else if code == 3 then "#e8590c"
    else "#868e96"
  }

  function DecisionLabel(code: int): (r: string)
    ensures r == "Unknown" <==> code !in {0, 1}
  {
    if code == 0 then "Allowed"
    else if code == 1 then "Denied"
    else "Unknown"
  }

  function FeedResultLabel(code: int): (r: string)
    ensures r == "Unknown" <==> code !in {0, 1, 2}
  {
    if code == 1 then "Success"
    else if code == 2 then "Failure"
    else if code == 0 then "Pending"
    else "Unknown"
  }

  /** Every device status the server sends is shown by its own name; Unknown (0) as "Unknown". */
  lemma DeviceStatusLabelNamesStatus(s: DeviceStatus)
    ensures DeviceStatusLabel(DeviceStatusCode(s)) ==
      match s
      case Unknown => "Unknown"
      case Online => "Online"
      case Offline => "Offline"
      case Error => "Error"
  {
  }

  /** Distinct statuses get distinct labels, so the label identifies the status. */
  lemma DeviceStatusLabelInjective(s: DeviceStatus, t: DeviceStatus)
    requires DeviceStatusLabel(DeviceStatusCode(s)) == DeviceStatusLabel(DeviceStatusCode(t))
    ensures s == t
  {
    DeviceStatusLabelNamesStatus(s);
    DeviceStatusLabelNamesStatus(t);
    assert "Unknown"[0] != "Online"[0] && "Offline"[1] != "Online"[1];
    assert "Error"[0] != "Unknown"[0] && "Error"[0] != "Online"[0] && "Error"[0] != "Offline"[0];
    assert "Unknown"[0] != "Offline"[0];
  }

  /** Online, Offline and Error each have their own colour; Unknown shares the grey of unknown codes. */
  lemma DeviceStatusColorsDistinct(s: DeviceStatus, t: DeviceStatus)
    requires s != t
    ensures DeviceStatusColor(DeviceStatusCode(s)) != DeviceStatusColor(DeviceStatusCode(t))
  {
    assert "#2f9e44"[1] != "#d9480f"[1] && "#2f9e44"[1] != "#e8590c"[1] && "#2f9e44"[1] != "#868e96"[1];
    assert "#d9480f"[1] != "#e8590c"[1] && "#d9480f"[1] != "#868e96"[1] && "#e8590c"[1] != "#868e96"[1];
  }

  lemma DecisionLabelNamesDecision(d: DecisionStatus)
    ensures DecisionLabel(DecisionStatusCode(d)) == if d == Allowed then "Allowed" else "Denied"
  {
  }

  /** A feed result not reported yet (code 0) is shown as "Pending". */
  lemma FeedResultLabelNamesResult(r: FeedResult)
    ensures FeedResultLabel(FeedResultCode(r)) ==
      match r
      case NotReported => "Pending"
      case Success => "Success"
      case Failure => "Failure"
  {
  }
}
