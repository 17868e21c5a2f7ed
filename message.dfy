/** `MessageRegistry`: assigns integer ids to message types, keyed by the
    message type's name (the name the reflection library reports for it). */
module Message {
  import opened Wrappers

  datatype Error = MessageTypeAlreadyRegistered(name: string)

  class MessageRegistry {
    var messageTypeIdMap: map<string, int>
    /** Declared and zero-initialised; no operation reads or updates it. */
    var idCounter: int

    constructor ()
      ensures messageTypeIdMap == map[] && idCounter == 0
    {
      messageTypeIdMap := map[];
      idCounter := 0;
    }

    /** `getMessageTypeId<TMsg>()`: -1 for a name that is not registered,
        otherwise the id stored for it. Reads the map only. */
    method GetMessageTypeId(typeName: string) returns (id: int)
      ensures typeName !in messageTypeIdMap ==> id == -1
      ensures typeName in messageTypeIdMap ==> id == messageTypeIdMap[typeName]
    {
      if typeName !in messageTypeIdMap {
        return -1;
      }
      id := messageTypeIdMap[typeName];
    }

    /** `registerMessageType<TMsg>()`: throws if the name is already present;
        otherwise inserts the name. The source inserts the bare name, so the id
        stored with it is not determined by the code: the model picks any. */
    method RegisterMessageType(typeName: string) returns (r: Outcome<Error>)
      modifies this
      ensures idCounter == old(idCounter)
      ensures typeName in old(messageTypeIdMap) ==>
                r == Fail(MessageTypeAlreadyRegistered(typeName)) && messageTypeIdMap == old(messageTypeIdMap)
      ensures typeName !in old(messageTypeIdMap) ==>
                r == Pass && typeName in messageTypeIdMap &&
                messageTypeIdMap.Keys == old(messageTypeIdMap.Keys) + {typeName} &&
                forall n :: n in old(messageTypeIdMap) ==> messageTypeIdMap[n] == old(messageTypeIdMap[n])
    {
      if typeName in messageTypeIdMap {
        return Fail(MessageTypeAlreadyRegistered(typeName));
      }
      var storedId: int :| true;
      messageTypeIdMap := messageTypeIdMap[typeName := storedId];
      r := Pass;
    }
  }
}
