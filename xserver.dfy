/** The X server as seen by the switcher: a fixed snapshot answering the
    queries it makes. A window missing from a map is a request that failed
    (or a property that is absent), which the source treats as "no
    information". */
module XServer {
  import opened Base

  type Window = u32

  /** The reply to `query_tree`: the parent and the children in
      bottom-to-top stacking order. */
  datatype TreeReply = TreeReply(parent: Window, children: seq<Window>)

  datatype Server = Server(
    tree: map<Window, TreeReply>,
    // windows whose `map_state` is VIEWABLE (a failed attributes query reads as not viewable)
    viewable: set<Window>,
    // value of `_NET_WM_NAME` read with type UTF8_STRING
    netWmName: map<Window, seq<byte>>,
    // value of `WM_NAME` read with any type
    wmName: map<Window, seq<byte>>,
    // value of `_NET_WM_ICON` read with type CARDINAL
    netWmIcon: map<Window, seq<byte>>,
    // windows the admission test `should_show_in_switcher` accepts
    managed: set<Window>
  )
}
