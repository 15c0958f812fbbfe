/** The records that the topic tree and the client tables share. */
module Entities {

  /** A client: its id and its table of subscribers, keyed by identifier, in insertion order. */
  class Client {
    const id: string
    var subs: seq<(string, Subscriber)>

    constructor (id: string)
      ensures this.id == id && subs == []
    {
      this.id := id;
      subs := [];
    }
  }

  /** A subscriber. `id` is the client id, the tag, a slash and the topic. */
  class Subscriber {
    const id: string
    const client_id: string
    const sub_tag: string
    const client: Client
    var node: Node?

    /** subscriber__new, for a tag that is given */
    constructor (topic: string, sub_tag: string, client: Client)
      ensures this.id == client.id + sub_tag + "/" + topic
      ensures client_id == client.id && this.sub_tag == sub_tag && this.client == client && node == null
    {
      this.id := client.id + sub_tag + "/" + topic;
      client_id, this.sub_tag, this.client, node := client.id, sub_tag, client, null;
    }

    /** subscriber__get_topic */
    function Topic(): string {
      var offset := |client_id| + |sub_tag| + 1;
      if offset <= |id| then id[offset..] else ""
    }

    /** subscriber__get_identifier */
    function Identifier(): string {
      if |client_id| <= |id| then id[|client_id|..] else ""
    }
  }

  /** A node of the topic tree. The two hash tables are an insertion-ordered list and a map. */
  class Node {
    var subs: seq<Subscriber>
    var sl_node: Node?
    var ml_node: Node?
    var parent: Node?
    var nodes: map<string, Node>

    constructor ()
      ensures subs == [] && sl_node == null && ml_node == null && parent == null && nodes == map[]
    {
      subs, sl_node, ml_node, parent, nodes := [], null, null, null, map[];
    }
  }
}
