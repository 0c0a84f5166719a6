/**
 The per-device VLAN table of a project.
 */
module DeviceConfig {

  datatype PortVlanEntry = PortVlanEntry(portId: int, pvid: int, vlanPriority: string)

  datatype PortTypeEntry = PortTypeEntry(portId: int, portType: string, vlanPriority: string)

  datatype StaticEntry = StaticEntry(
    vlanId: int, name: string, teMstid: bool, egressPorts: seq<int>, untaggedPorts: seq<int>, vlanPriority: string)

  datatype VlanTable = VlanTable(
    deviceId: int, managementVlan: int,
    portVlans: seq<PortVlanEntry>, portTypes: seq<PortTypeEntry>, statics: seq<StaticEntry>)
}
