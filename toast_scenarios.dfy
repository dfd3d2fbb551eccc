/** Client runs of the store, proved from the store's contracts alone. Each run
    starts from a fresh store and returns the states it observes. */
module ToastScenarios {
  import opened Wrappers
  import opened ToastModel
  import opened ToastStore

  /** A toast with a 2000 ms duration: its auto-dismiss timer closes it, and the
      removal timer that this arms then purges it. */
  method AutoDismissThenPurge() returns (shown: seq<ToasterToast>, closed: seq<ToasterToast>, purged: seq<ToasterToast>)
    ensures |shown| == 1 && shown[0].title == Some("Saved") && shown[0].open == Some(true)
    ensures closed == [shown[0].(open := Some(false))]
    ensures purged == []
  {
    var st := new Store();
    var id := st.Toast(ToastProps(Some("Saved"), None, None, Some(2000)));
    shown := st.toasts;
    assert st.timers == map[0 := AutoDismiss(id, 2000)];
    st.FireAutoDismiss(0);
    DismissedOne(shown, id, 0);
    closed := st.toasts;
    assert id in st.toastTimeouts;
    st.FireRemoval(id);
    purged := st.toasts;
  }

  /** Dismissing the same toast twice leaves one pending removal timer. */
  method DismissTwiceArmsOneRemoval() returns (id: string, once: map<string, nat>, twice: map<string, nat>,
                                               pendingOnce: map<nat, Timer>, pendingTwice: map<nat, Timer>)
    ensures once.Keys == {id}
    ensures twice == once && pendingTwice == pendingOnce
  {
    var st := new Store();
    id := st.Toast(ToastProps(Some("A"), None, None, None));
    st.Dismiss(Some(id));
    once, pendingOnce := st.toastTimeouts, st.timers;
    st.Dismiss(Some(id));
    twice, pendingTwice := st.toastTimeouts, st.timers;
  }

  /** Two listeners see the same state in the same dispatch; after one
      unsubscribes, only the other is called. */
  method TwoListeners() returns (first: seq<Delivery>, second: seq<Delivery>)
    ensures |first| == 2 && first[0].listener == 1 && first[1].listener == 2
    ensures first[0].toasts == first[1].toasts
    ensures |first[0].toasts| == 1 && first[0].toasts[0].title == Some("A")
    ensures |second| == 1 && second[0].listener == 2
    ensures |second[0].toasts| == 1 && second[0].toasts[0].title == Some("B")
  {
    var st := new Store();
    st.Subscribe(1);
    st.Subscribe(2);
    assert st.listeners == [1, 2];
    var a := st.Toast(ToastProps(Some("A"), None, None, None));
    first := st.deliveries;
    assert first == Fanout([1, 2], st.toasts);
    st.Unsubscribe(1);
    assert st.listeners == [2];
    var b := st.Toast(ToastProps(Some("B"), None, None, None));
    second := st.deliveries[2..];
    assert st.deliveries == first + Fanout([2], st.toasts);
    assert second == Fanout([2], st.toasts);
  }
}
